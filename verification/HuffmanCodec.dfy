/** The loops of the Huffman codec, proved against `HuffmanCode`. */
module HuffmanCodec {
  import opened Machine
  import opened Bits
  import opened HuffmanCode

  datatype EncodeError = BitLengthOverflow | ByteLengthOverflow

  /** The octets an encoding takes, when its bits can be counted. */
  function RequiredEncodedLen(t: Codes, decoded: seq<byte>): Result<nat, EncodeError>
    requires |t| == 257
  {
    var b := |EncodeBits(t, decoded)|;
    if b > USIZE_MAX then Err(BitLengthOverflow)
    else if b + 7 > USIZE_MAX then Err(ByteLengthOverflow)
    else Ok(|Encode(t, decoded)|)
  }

  /** The bits of the codes of all these octets. */
  function BitTotal(t: Codes, decoded: seq<byte>): nat
    requires |t| == 257
  {
    if decoded == [] then 0 else t[decoded[0]].length + BitTotal(t, decoded[1..])
  }

  lemma {:induction false} EncodeBitsTotal(t: Codes, decoded: seq<byte>)
    requires |t| == 257
    ensures |EncodeBits(t, decoded)| == BitTotal(t, decoded)
  {
    if decoded != [] {
      EncodeBitsTotal(t, decoded[1..]);
      EncodeBitsCons(t, decoded[0], decoded[1..]);
      assert decoded == [decoded[0]] + decoded[1..];
    }
  }

  /** The least number of octets that hold the code bits, unless their count, or that and seven more, is too great. */
  lemma RequiredLenExact(t: Codes, decoded: seq<byte>)
    requires |t| == 257
    ensures var bits := BitTotal(t, decoded);
            match RequiredEncodedLen(t, decoded)
            case Ok(n) => bits + 7 <= USIZE_MAX && 8 * n - 8 < bits <= 8 * n
            case Err(BitLengthOverflow) => bits > USIZE_MAX
            case Err(ByteLengthOverflow) => bits <= USIZE_MAX < bits + 7
  {
    EncodeBitsTotal(t, decoded);
  }

  lemma {:induction false} EncodeBitsPrefix(t: Codes, decoded: seq<byte>, i: nat)
    requires |t| == 257 && i <= |decoded|
    ensures |EncodeBits(t, decoded[..i])| <= |EncodeBits(t, decoded)|
  {
    if i == |decoded| {
      assert decoded[..i] == decoded;
    } else {
      var front := decoded[..|decoded| - 1];
      assert front[..i] == decoded[..i];
      EncodeBitsPrefix(t, front, i);
    }
  }

  method EncodedLen(t: Codes, decoded: seq<byte>) returns (r: Result<nat, EncodeError>)
    requires WellSized(t)
    ensures r == RequiredEncodedLen(t, decoded)
  {
    var count := 0;
    for i := 0 to |decoded|
      invariant count == |EncodeBits(t, decoded[..i])| <= USIZE_MAX
    {
      assert decoded[..i + 1][..i] == decoded[..i];
      EncodeBitsPrefix(t, decoded, i + 1);
      if count + t[decoded[i]].length > USIZE_MAX {
        return Err(BitLengthOverflow);
      }
      count := count + t[decoded[i]].length;
    }
    assert decoded[..|decoded|] == decoded;
    if count + 7 > USIZE_MAX {
      return Err(ByteLengthOverflow);
    }
    return Ok((count + 7) / 8);
  }

  /** Moves whole octets out of the pending bits. */
  method Drain(target: array<byte>, at: nat, number: nat, count: nat)
    returns (output: nat, pending: nat, pendingBits: nat, ghost done: seq<byte>)
    requires number < Pow2(count) && at + count / 8 <= target.Length
    modifies target
    ensures pendingBits < 8 && pending < Pow2(pendingBits)
    ensures output == at + |done| <= target.Length && 8 * |done| + pendingBits == count
    ensures OctetBits(done) + ToBits(pending, pendingBits) == ToBits(number, count)
    ensures target[..] == Splice(old(target[..]), at, done)
  {
    output, pending, pendingBits, done := at, number, count, [];
    while pendingBits >= 8
      invariant pending < Pow2(pendingBits)
      invariant output == at + |done| && 8 * |done| + pendingBits == count
      invariant OctetBits(done) + ToBits(pending, pendingBits) == ToBits(number, count)
      invariant target[..] == Splice(old(target[..]), at, done)
    {
      ToBitsSplit(pending, pendingBits, pendingBits - 8);
      Pow2Of32();
      pendingBits := pendingBits - 8;
      var octet := ShiftRight(pending, pendingBits);
      Assoc(OctetBits(done), ToBits(octet, 8), ToBits(LowBits(pending, pendingBits), pendingBits));
      assert (done + [octet])[..|done|] == done;
      SplicePut(old(target[..]), at, done, octet);
      Put(target, output, octet);
      done := done + [octet];
      output := output + 1;
      pending := LowBits(pending, pendingBits);
    }
  }

  /** Shifting the next code into the pending bits appends its codeword. */
  lemma SymbolAppended(t: Codes, decoded: seq<byte>, i: nat, c: Codeword, done: BitString, pending: nat,
                       pendingBits: nat)
    requires WellSized(t) && i < |decoded| && pending < Pow2(pendingBits) && c == t[decoded[i]]
    requires done + ToBits(pending, pendingBits) == EncodeBits(t, decoded[..i])
    ensures ShiftLeft(pending, c.length) + c.code < Pow2(pendingBits + c.length)
    ensures done + ToBits(ShiftLeft(pending, c.length) + c.code, pendingBits + c.length)
            == EncodeBits(t, decoded[..i + 1])
  {
    assert decoded[..i + 1][..i] == decoded[..i];
    BitsAppended(EncodeBits(t, decoded[..i]), done, pending, pendingBits, c.code, c.length);
  }

  lemma BitsAppended(front: BitString, done: BitString, pending: nat, pendingBits: nat, code: nat, length: nat)
    requires pending < Pow2(pendingBits) && code < Pow2(length)
    requires done + ToBits(pending, pendingBits) == front
    ensures var number := ShiftLeft(pending, length) + code;
            && number < Pow2(pendingBits + length)
            && done + ToBits(number, pendingBits + length) == front + ToBits(code, length)
  {
    ToBitsAppend(pending, pendingBits, code, length);
    Assoc(done, ToBits(pending, pendingBits), ToBits(code, length));
  }

  /** One round of the encoder: the codeword of symbol `i` joins the pending bits, and whole octets leave. */
  method EncodeSymbol(t: Codes, decoded: seq<byte>, i: nat, target: array<byte>, at: nat,
                      carry: nat, carryBits: nat, ghost front: seq<byte>)
    returns (output: nat, pending: nat, pendingBits: nat, ghost done: seq<byte>)
    requires WellSized(t) && i < |decoded|
    requires carryBits < 8 && carry < Pow2(carryBits)
    requires OctetBits(front) + ToBits(carry, carryBits) == EncodeBits(t, decoded[..i])
    requires at - |front| + |EncodeBits(t, decoded)| / 8 <= target.Length
    modifies target
    ensures pendingBits < 8 && pending < Pow2(pendingBits)
    ensures output == at + |done| <= target.Length
    ensures OctetBits(front + done) + ToBits(pending, pendingBits) == EncodeBits(t, decoded[..i + 1])
    ensures target[..] == Splice(old(target[..]), at, done)
  {
    var c := t[decoded[i]];
    SymbolAppended(t, decoded, i, c, OctetBits(front), carry, carryBits);
    EncodeBitsPrefix(t, decoded, i + 1);
    output, pending, pendingBits, done := Drain(target, at, ShiftLeft(carry, c.length) + c.code, carryBits + c.length);
    OctetBitsAppend(front, done);
    Assoc(OctetBits(front), OctetBits(done), ToBits(pending, pendingBits));
  }

  /** Writes the whole octets of the codewords and holds back the bits of an unfinished one. */
  method EncodeWords(t: Codes, decoded: seq<byte>, target: array<byte>, at: nat)
    returns (output: nat, pending: nat, pendingBits: nat, ghost done: seq<byte>)
    requires WellSized(t)
    requires at + |EncodeBits(t, decoded)| / 8 <= target.Length
    modifies target
    ensures pendingBits < 8 && pending < Pow2(pendingBits)
    ensures output == at + |done| <= target.Length
    ensures OctetBits(done) + ToBits(pending, pendingBits) == EncodeBits(t, decoded)
    ensures target[..] == Splice(old(target[..]), at, done)
  {
    output, pending, pendingBits, done := at, 0, 0, [];
    ghost var original := target[..];
    SpliceNothing(original, at);
    assert decoded[..0] == [];
    assert OctetBits(done) + ToBits(pending, pendingBits) == EncodeBits(t, decoded[..0]);
    assert 0 < Pow2(0);
    hide EncodeBits;
    hide OctetBits;
    hide ToBits;
    hide Pow2;
    hide Splice;
    for i := 0 to |decoded|
      invariant pendingBits < 8 && pending < Pow2(pendingBits)
      invariant output == at + |done| <= target.Length
      invariant OctetBits(done) + ToBits(pending, pendingBits) == EncodeBits(t, decoded[..i])
      invariant target[..] == Splice(original, at, done)
    {
      ghost var more;
      output, pending, pendingBits, more := EncodeSymbol(t, decoded, i, target, output, pending, pendingBits, done);
      SpliceAppend(original, at, done, more);
      done := done + more;
    }
    assert decoded[..|decoded|] == decoded;
  }

  /** Writes the encoding at `at`, and nothing else. */
  method EncodePrevalidated(t: Codes, decoded: seq<byte>, target: array<byte>, at: nat)
    requires WellSized(t)
    requires at + |Encode(t, decoded)| <= target.Length
    modifies target
    ensures target[..] == Splice(old(target[..]), at, Encode(t, decoded))
  {
    hide Encode;
    hide EncodeBits;
    hide OctetBits;
    hide ToBits;
    hide ShiftLeft;
    var output, pending, pendingBits;
    ghost var done;
    output, pending, pendingBits, done := EncodeWords(t, decoded, target, at);
    if pendingBits != 0 {
      var free := 8 - pendingBits;
      var octet := ShiftLeft(pending, free) + (Pow2(free) - 1);
      PadOctet(pending, pendingBits, free, octet);
      PackedEncoding(t, decoded, done, pending, pendingBits, [octet], free);
      SplicePut(old(target[..]), at, done, octet);
      Put(target, output, octet);
    } else {
      PackedEncoding(t, decoded, done, pending, 0, [], 0);
      assert done + [] == done;
    }
  }

  lemma PadBits(pending: nat, count: nat, free: nat)
    requires pending < Pow2(count)
    ensures var octet := ShiftLeft(pending, free) + (Pow2(free) - 1);
            octet < Pow2(count + free) && ToBits(octet, count + free) == ToBits(pending, count) + Ones(free)
  {
    ToBitsAppend(pending, count, Pow2(free) - 1, free);
    OnesToBits(free);
  }

  lemma PadOctet(pending: nat, count: nat, free: nat, octet: nat)
    requires count + free == 8 && pending < Pow2(count)
    requires octet == ShiftLeft(pending, free) + (Pow2(free) - 1)
    ensures octet < 256 && OctetBits([octet]) == ToBits(pending, count) + Ones(free)
  {
    PadBits(pending, count, free);
    EightBits(count + free);
    SingleOctet(octet, count + free);
  }

  lemma EightBits(n: nat)
    requires n == 8
    ensures Pow2(n) == 256
  {
    Pow2Of32();
  }

  lemma OnesToBits(n: nat)
    ensures ToBits(Pow2(n) - 1, n) == Ones(n)
  {
    ValueOnes(n);
    ToBitsValue(Ones(n));
  }

  lemma SingleOctet(octet: byte, n: nat)
    requires n == 8
    ensures OctetBits([octet]) == ToBits(octet, n)
  {
    assert [octet][..0] == [];
    assert OctetBits([octet]) == OctetBits([]) + ToBits(octet, 8);
  }

  /** The last octet carries the pending bits and the padding. */
  lemma PackedEncoding(t: Codes, decoded: seq<byte>, done: seq<byte>, pending: nat, count: nat, last: seq<byte>,
                       free: nat)
    requires |t| == 257 && free < 8
    requires OctetBits(done) + ToBits(pending, count) == EncodeBits(t, decoded)
    requires OctetBits(last) == ToBits(pending, count) + Ones(free)
    ensures done + last == Encode(t, decoded)
  {
    OctetBitsAppend(done, last);
    Assoc(OctetBits(done), ToBits(pending, count), Ones(free));
    PackedBits(t, decoded, done + last, free);
  }

  lemma PackedBits(t: Codes, decoded: seq<byte>, encoded: seq<byte>, free: nat)
    requires |t| == 257 && free < 8
    requires OctetBits(encoded) == EncodeBits(t, decoded) + Ones(free)
    ensures encoded == Encode(t, decoded)
  {
    PaddingUnique(|EncodeBits(t, decoded)|, free);
    PackOctetBits(encoded);
  }

  // ---- Decoding ----

  /**
   * After `position` bits the decoder has read `symbols` and holds `partial`, the start of
   * a codeword; what is left to read decides the rest.
   */
  ghost predicate Reached(t: Codes, all: BitString, position: nat, symbols: seq<byte>, partial: BitString)
    requires |t| == 257
  {
    && position <= |all|
    && |partial| < LONGEST
    && SHORTEST * |symbols| + |partial| <= position
    && Scan(t, [], all) == Prepend(symbols, Scan(t, partial, all[position..]))
  }

  lemma ReachedStart(t: Codes, all: BitString)
    requires |t| == 257
    ensures Reached(t, all, 0, [], [])
  {
    assert all[0..] == all;
    PrependNothing(Scan(t, [], all));
  }

  /** Reading one more bit. */
  lemma ReachedNext(t: Codes, all: BitString, position: nat, symbols: seq<byte>, partial: BitString)
    requires WellSized(t) && Reached(t, all, position, symbols, partial) && position < |all|
    ensures var word := partial + [all[position]];
            var code := Value(word);
            && code == 2 * Value(partial) + Digit(all[position])
            && match SymbolFor(t, code, |word|)
               case Some(s) =>
                 if s == EOS then Scan(t, [], all) == Err(EosSymbol)
                 else Reached(t, all, position + 1, symbols + [s], [])
               case None =>
                 if IsPrefix(t, code, |word|) then Reached(t, all, position + 1, symbols, word)
                 else Scan(t, [], all) == Err(InvalidHuffmanCode)
  {
    var rest := all[position..];
    var word := partial + [all[position]];
    assert rest[1..] == all[position + 1..];
    assert word[..|partial|] == partial;
    match SymbolFor(t, Value(word), |word|)
    case Some(s) =>
      if s != EOS {
        PrependTwice(symbols, [s], Scan(t, [], rest[1..]));
      }
    case None =>
  }

  /** The number that one more bit of the input makes of a partial codeword. */
  lemma BitTaken(encoded: seq<byte>, i: nat, shift: nat, partial: BitString)
    requires i < |encoded| && shift < 8
    ensures var bit := OctetBits(encoded)[8 * i + (7 - shift)];
            && Digit(bit) == ShiftRight(encoded[i], shift) % 2
            && Value(partial + [bit]) == 2 * Value(partial) + Digit(bit)
  {
    OctetBitsAt(encoded, i, shift);
    var word := partial + [OctetBits(encoded)[8 * i + (7 - shift)]];
    assert word[..|partial|] == partial;
  }

  /** The same, in the numbers the decoder keeps. */
  lemma BitRead(t: Codes, encoded: seq<byte>, i: nat, shift: nat, symbols: seq<byte>, partial: BitString,
                code: nat, bits: nat)
    requires WellSized(t) && i < |encoded| && shift < 8
    requires code == Value(partial) && bits == |partial|
    requires Reached(t, OctetBits(encoded), 8 * i + (7 - shift), symbols, partial)
    ensures var all := OctetBits(encoded);
            var word := partial + [all[8 * i + (7 - shift)]];
            var next := 2 * code + ShiftRight(encoded[i], shift) % 2;
            && next == Value(word)
            && match SymbolFor(t, next, bits + 1)
               case Some(s) =>
                 if s == EOS then Decode(t, encoded) == Err(EosSymbol)
                 else Reached(t, all, 8 * i + (8 - shift), symbols + [s], [])
               case None =>
                 if IsPrefix(t, next, bits + 1) then Reached(t, all, 8 * i + (8 - shift), symbols, word)
                 else Decode(t, encoded) == Err(InvalidHuffmanCode)
  {
    hide Reached;
    hide Scan;
    hide SymbolFor;
    hide IsPrefix;
    hide OctetBits;
    hide ShiftRight;
    hide Value;
    hide WellSized;
    BitTaken(encoded, i, shift, partial);
    ReachedNext(t, OctetBits(encoded), 8 * i + (7 - shift), symbols, partial);
  }

  lemma ReachedEnd(t: Codes, all: BitString, symbols: seq<byte>, partial: BitString)
    requires |t| == 257 && Reached(t, all, |all|, symbols, partial)
    ensures Scan(t, [], all) == match ValidateTail(Value(partial), |partial|)
                                case Err(e) => Err(e)
                                case Ok(_) => Ok(symbols)
  {
    assert symbols + [] == symbols;
  }

  /** Validates the whole input and counts what it decodes to. */
  method DecodedLen(t: Codes, encoded: seq<byte>) returns (r: Result<nat, DecodeError>)
    requires WellSized(t) && |encoded| <= ISIZE_MAX
    ensures match Decode(t, encoded)
            case Ok(decoded) => r == Ok(|decoded|)
            case Err(e) => r == Err(e)
  {
    hide Scan;
    hide IsPrefix;
    var code, bits, length := 0, 0, 0;
    ghost var all := OctetBits(encoded);
    ghost var symbols: seq<byte>, partial: BitString := [], [];
    ReachedStart(t, all);
    for i := 0 to |encoded|
      invariant code == Value(partial) && bits == |partial| && length == |symbols|
      invariant Reached(t, all, 8 * i, symbols, partial)
    {
      for shift := 8 downto 0
        invariant code == Value(partial) && bits == |partial| && length == |symbols|
        invariant Reached(t, all, 8 * i + (8 - shift), symbols, partial)
      {
        BitRead(t, encoded, i, shift, symbols, partial, code, bits);
        partial := partial + [all[8 * i + (7 - shift)]];
        code := 2 * code + ShiftRight(encoded[i], shift) % 2;
        bits := bits + 1;
        var symbol := SymbolFor(t, code, bits);
        if symbol.Some? {
          if symbol.value == EOS {
            return Err(EosSymbol);
          }
          if length == USIZE_MAX {
            assert false; // the decoded length cannot overflow: no codeword is shorter than five bits
          }
          length := length + 1;
          symbols := symbols + [symbol.value];
          code, bits, partial := 0, 0, [];
        } else if !IsPrefix(t, code, bits) {
          return Err(InvalidHuffmanCode);
        }
      }
    }
    ReachedEnd(t, all, symbols, partial);
    match ValidateTail(code, bits)
    case Err(e) => return Err(e);
    case Ok(_) => return Ok(length);
  }

  /** Writes what a validated input decodes to at `at`, and nothing else. */
  method DecodePrevalidated(t: Codes, encoded: seq<byte>, target: array<byte>, at: nat)
    requires WellSized(t) && Decode(t, encoded).Ok?
    requires at + |Decode(t, encoded).value| <= target.Length
    modifies target
    ensures target[..] == Splice(old(target[..]), at, Decode(t, encoded).value)
  {
    hide Scan;
    hide SymbolFor;
    hide IsPrefix;
    hide OctetBits;
    hide ShiftRight;
    var code, bits, output := 0, 0, at;
    ghost var all := OctetBits(encoded);
    ghost var symbols: seq<byte>, partial: BitString := [], [];
    ghost var original := target[..];
    ReachedStart(t, all);
    for i := 0 to |encoded|
      invariant code == Value(partial) && bits == |partial| && output == at + |symbols|
      invariant Reached(t, all, 8 * i, symbols, partial)
      invariant output <= target.Length && target[..] == Splice(original, at, symbols)
    {
      for shift := 8 downto 0
        invariant code == Value(partial) && bits == |partial| && output == at + |symbols|
        invariant Reached(t, all, 8 * i + (8 - shift), symbols, partial)
        invariant output <= target.Length && target[..] == Splice(original, at, symbols)
      {
        BitRead(t, encoded, i, shift, symbols, partial, code, bits);
        partial := partial + [all[8 * i + (7 - shift)]];
        code := 2 * code + ShiftRight(encoded[i], shift) % 2;
        bits := bits + 1;
        var symbol := SymbolFor(t, code, bits);
        if symbol.Some? {
          if symbol.value != EOS {
            SplicePut(original, at, symbols, symbol.value);
            Put(target, output, symbol.value);
            output := output + 1;
            symbols := symbols + [symbol.value];
          }
          code, bits, partial := 0, 0, [];
        }
      }
    }
    ReachedEnd(t, all, symbols, partial);
  }
}