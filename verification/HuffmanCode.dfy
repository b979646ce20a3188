/**
 * Huffman coding over an arbitrary code table of 256 octet symbols and EOS, as in
 * RFC 7541 Appendix B. Everything here holds of every table that is prefix-free and
 * complete and gives EOS the all-ones word; `HuffmanRfc7541` shows the RFC's table is one.
 */
module HuffmanCode {
  import opened Machine
  import opened Bits

  datatype Codeword = Codeword(code: nat, length: nat)

  type Codes = seq<Codeword>

  const EOS := 256
  const SHORTEST := 5
  const LONGEST := 30

  datatype DecodeError = EosSymbol | InvalidHuffmanCode | InvalidPadding

  ghost predicate WellSized(t: Codes) {
    && |t| == 257
    && forall s :: 0 <= s < 257 ==> SHORTEST <= t[s].length <= LONGEST && t[s].code < Pow2(t[s].length)
  }

  function Word(t: Codes, s: nat): (w: BitString)
    requires s < |t|
    ensures |w| == t[s].length
  {
    ToBits(t[s].code, t[s].length)
  }

  ghost predicate PrefixFree(t: Codes) {
    forall s, u :: 0 <= s < |t| && 0 <= u < |t| ==> Apart(t, s, u)
  }

  /** The codeword of one symbol does not start the codeword of another. */
  ghost predicate Apart(t: Codes, s: nat, u: nat)
    requires s < |t| && u < |t|
  {
    Word(t, s) <= Word(t, u) ==> s == u
  }

  /** Every bit string runs along some codeword: none leaves the code tree. */
  ghost predicate Complete(t: Codes) {
    forall p: BitString :: Follows(t, p)
  }

  ghost predicate Follows(t: Codes, p: BitString) {
    exists s :: 0 <= s < |t| && (Word(t, s) <= p || p <= Word(t, s))
  }

  ghost predicate Sound(t: Codes) {
    && WellSized(t)
    && PrefixFree(t)
    && Complete(t)
    && Word(t, EOS) == Ones(LONGEST)
  }

  // ---- The functions of the codec ----

  /** The first symbol at or after `from` with exactly this code. */
  function Position(t: Codes, code: nat, length: nat, from: nat): (r: Option<nat>)
    requires from <= |t|
    ensures r.Some? ==> from <= r.value < |t| && t[r.value] == Codeword(code, length)
    ensures r.None? ==> forall s :: from <= s < |t| ==> t[s] != Codeword(code, length)
    decreases |t| - from
  {
    if from == |t| then None
    else if t[from] == Codeword(code, length) then Some(from)
    else Position(t, code, length, from + 1)
  }

  function SymbolFor(t: Codes, code: nat, length: nat): (r: Option<nat>)
    ensures r.Some? ==> r.value < |t| && t[r.value] == Codeword(code, length)
    ensures r.None? ==> forall s :: 0 <= s < |t| ==> t[s] != Codeword(code, length)
  {
    Position(t, code, length, 0)
  }

  predicate IsPrefix(t: Codes, code: nat, length: nat) {
    exists s :: 0 <= s < |t| && t[s].length > length && ShiftRight(t[s].code, t[s].length - length) == code
  }

  function ValidateTail(code: nat, length: nat): Result<(), DecodeError> {
    if length == 0 then Ok(())
    else if length > 7 || code != Pow2(length) - 1 then Err(InvalidPadding)
    else Ok(())
  }

  function EncodeBits(t: Codes, decoded: seq<byte>): (b: BitString)
    requires |t| == 257
  {
    if decoded == [] then [] else EncodeBits(t, decoded[..|decoded| - 1]) + Word(t, decoded[|decoded| - 1])
  }

  function Padding(length: nat): (n: nat)
    ensures n <= 7 && (length + n) % 8 == 0
  {
    (8 - length % 8) % 8
  }

  /** The octets of an encoding: the codewords, then ones up to the octet boundary. */
  function Encode(t: Codes, decoded: seq<byte>): (encoded: seq<byte>)
    requires |t| == 257
    ensures |encoded| == (|EncodeBits(t, decoded)| + 7) / 8
  {
    var b := EncodeBits(t, decoded);
    Pack(b + Ones(Padding(|b|)))
  }

  function Prepend(symbols: seq<byte>, r: Result<seq<byte>, DecodeError>): Result<seq<byte>, DecodeError> {
    match r
    case Err(e) => Err(e)
    case Ok(rest) => Ok(symbols + rest)
  }

  /** What the decoder makes of `rest` when it holds `partial`, the bits of an unfinished codeword. */
  function Scan(t: Codes, partial: BitString, rest: BitString): (r: Result<seq<byte>, DecodeError>)
    requires |t| == 257
    decreases |rest|
  {
    if rest == [] then
      match ValidateTail(Value(partial), |partial|)
      case Err(e) => Err(e)
      case Ok(_) => Ok([])
    else
      var word := partial + [rest[0]];
      match SymbolFor(t, Value(word), |word|)
      case Some(s) =>
        if s == EOS then Err(EosSymbol) else Prepend([s], Scan(t, [], rest[1..]))
      case None =>
        if IsPrefix(t, Value(word), |word|) then Scan(t, word, rest[1..]) else Err(InvalidHuffmanCode)
  }

  function Decode(t: Codes, encoded: seq<byte>): Result<seq<byte>, DecodeError>
    requires |t| == 257
  {
    Scan(t, [], OctetBits(encoded))
  }

  // ---- The numeric tests, as facts about words ----

  lemma SymbolForWord(t: Codes, p: BitString)
    requires WellSized(t) && PrefixFree(t)
    ensures var r := SymbolFor(t, Value(p), |p|);
            && (r.Some? ==> Word(t, r.value) == p)
            && (r.Some? ==> forall u :: 0 <= u < 257 && p <= Word(t, u) ==> u == r.value)
            && forall s :: 0 <= s < 257 && Word(t, s) == p ==> r == Some(s)
  {
    ToBitsValue(p);
    var r := SymbolFor(t, Value(p), |p|);
    if r.Some? {
      forall u | 0 <= u < 257 && p <= Word(t, u)
        ensures u == r.value
      {
        assert Apart(t, r.value, u);
      }
    }
    forall s | 0 <= s < 257 && Word(t, s) == p
      ensures SymbolFor(t, Value(p), |p|) == Some(s)
    {
      ValueToBits(t[s].code, t[s].length);
      assert t[s] == Codeword(Value(p), |p|);
    }
  }

  lemma IsPrefixWord(t: Codes, p: BitString)
    requires WellSized(t)
    ensures IsPrefix(t, Value(p), |p|) <==> exists s :: 0 <= s < 257 && p < Word(t, s)
  {
    forall s | 0 <= s < 257 && t[s].length > |p|
      ensures ShiftRight(t[s].code, t[s].length - |p|) == Value(p) <==> p <= Word(t, s)
    {
      ShiftIsPrefix(t[s].code, t[s].length, p);
    }
    if IsPrefix(t, Value(p), |p|) {
      var s :| 0 <= s < |t| && t[s].length > |p| && ShiftRight(t[s].code, t[s].length - |p|) == Value(p);
      assert p < Word(t, s);
    }
  }

  // ---- One step of the scan ----

  /** Reading the next bit on the way to codeword `s`, when more of it is to come. */
  lemma ScanInside(t: Codes, s: nat, k: nat, rest: BitString)
    requires Sound(t) && s < 257 && k + 1 < t[s].length && rest != [] && rest[0] == Word(t, s)[k]
    ensures Scan(t, Word(t, s)[..k], rest) == Scan(t, Word(t, s)[..k + 1], rest[1..])
  {
    var w := Word(t, s);
    var p := w[..k + 1];
    assert w[..k] + [rest[0]] == p;
    SymbolForWord(t, p);
    IsPrefixWord(t, p);
    assert p < w;
  }

  /** The bits of codeword `s` from position `k` on bring the scan to that symbol. */
  lemma {:induction false} ScanWord(t: Codes, s: nat, k: nat, tail: BitString)
    requires Sound(t) && s < 257 && k < t[s].length
    ensures Scan(t, Word(t, s)[..k], Word(t, s)[k..] + tail)
            == if s == EOS then Err(EosSymbol) else Prepend([s], Scan(t, [], tail))
    decreases t[s].length - k
  {
    var w := Word(t, s);
    var rest := w[k..] + tail;
    assert rest[0] == w[k];
    if k + 1 < |w| {
      ScanInside(t, s, k, rest);
      assert rest[1..] == w[k + 1..] + tail;
      ScanWord(t, s, k + 1, tail);
    } else {
      assert w[..k] + [rest[0]] == w;
      assert rest[1..] == tail;
      SymbolForWord(t, w);
    }
  }

  lemma ScanWhole(t: Codes, s: nat, tail: BitString)
    requires Sound(t) && s < 257
    ensures Scan(t, [], Word(t, s) + tail) == if s == EOS then Err(EosSymbol) else Prepend([s], Scan(t, [], tail))
  {
    var w := Word(t, s);
    assert w[..0] == [] && w[0..] == w;
    ScanWord(t, s, 0, tail);
  }

  lemma PrependNothing(r: Result<seq<byte>, DecodeError>)
    ensures Prepend([], r) == r
  {
    if r.Ok? {
      assert [] + r.value == r.value;
    }
  }

  lemma PrependTwice(a: seq<byte>, b: seq<byte>, r: Result<seq<byte>, DecodeError>)
    ensures Prepend(a, Prepend(b, r)) == Prepend(a + b, r)
  {
    if r.Ok? {
      assert a + (b + r.value) == (a + b) + r.value;
    }
  }

  /** At most seven ones are padding: no codeword is hidden in them. */
  lemma {:induction false} ScanOnes(t: Codes, k: nat, n: nat)
    requires Sound(t) && k + n <= 7
    ensures Scan(t, Ones(k), Ones(n)) == Ok([])
    decreases n
  {
    if n == 0 {
      ValueOnes(k);
    } else {
      var w := Word(t, EOS);
      assert w[..k] == Ones(k) && w[..k + 1] == Ones(k + 1);
      ScanInside(t, EOS, k, Ones(n));
      assert Ones(n)[1..] == Ones(n - 1);
      ScanOnes(t, k + 1, n - 1);
    }
  }

  // ---- Acceptance is exact ----

  lemma {:induction false} EncodeBitsCons(t: Codes, s: byte, rest: seq<byte>)
    requires |t| == 257
    ensures EncodeBits(t, [s] + rest) == Word(t, s) + EncodeBits(t, rest)
  {
    if rest == [] {
      assert [s] + rest == [s];
      assert [s][..0] == [];
    } else {
      var n := |rest| - 1;
      assert ([s] + rest)[..n + 1] == [s] + rest[..n];
      assert ([s] + rest)[n + 1] == rest[n];
      EncodeBitsCons(t, s, rest[..n]);
      Assoc(Word(t, s), EncodeBits(t, rest[..n]), Word(t, rest[n]));
    }
  }

  lemma {:induction false} ScanEncoded(t: Codes, decoded: seq<byte>, tail: BitString)
    requires Sound(t)
    ensures Scan(t, [], EncodeBits(t, decoded) + tail) == Prepend(decoded, Scan(t, [], tail))
  {
    if decoded == [] {
      assert EncodeBits(t, decoded) + tail == tail;
      PrependNothing(Scan(t, [], tail));
    } else {
      var s, rest := decoded[0], decoded[1..];
      assert [s] + rest == decoded;
      EncodeBitsCons(t, s, rest);
      var w := Word(t, s);
      Assoc(w, EncodeBits(t, rest), tail);
      ScanWhole(t, s, EncodeBits(t, rest) + tail);
      ScanEncoded(t, rest, tail);
      PrependTwice([s], rest, Scan(t, [], tail));
    }
  }

  /** `b` is codewords of octets followed by at most seven ones. */
  ghost predicate IsEncoding(t: Codes, b: BitString, decoded: seq<byte>)
    requires |t| == 257
  {
    exists n :: n <= 7 && b == EncodeBits(t, decoded) + Ones(n)
  }

  lemma IsEncodingCons(t: Codes, s: byte, b: BitString, decoded: seq<byte>)
    requires |t| == 257 && IsEncoding(t, b, decoded)
    ensures IsEncoding(t, Word(t, s) + b, [s] + decoded)
  {
    var n :| n <= 7 && b == EncodeBits(t, decoded) + Ones(n);
    EncodeBitsCons(t, s, decoded);
    Assoc(Word(t, s), EncodeBits(t, decoded), Ones(n));
  }

  /** Whatever the scan accepts is an encoding of what it returns. */
  lemma {:induction false} ScanSound(t: Codes, partial: BitString, rest: BitString)
    requires Sound(t) && Scan(t, partial, rest).Ok?
    ensures IsEncoding(t, partial + rest, Scan(t, partial, rest).value)
    decreases |rest|
  {
    if rest == [] {
      ValueOnes(|partial|);
      ValueInjective(partial, Ones(|partial|));
      assert partial + rest == EncodeBits(t, []) + Ones(|partial|);
    } else {
      var word := partial + [rest[0]];
      SymbolForWord(t, word);
      SplitFirst(partial, rest);
      match SymbolFor(t, Value(word), |word|) {
        case Some(s) =>
          ScanSound(t, [], rest[1..]);
          assert [] + rest[1..] == rest[1..];
          IsEncodingCons(t, s, rest[1..], Scan(t, [], rest[1..]).value);
        case None =>
          ScanSound(t, word, rest[1..]);
      }
    }
  }

  lemma SplitFirst(partial: BitString, rest: BitString)
    requires rest != []
    ensures partial + rest == (partial + [rest[0]]) + rest[1..]
  {
  }

  /** The decoder accepts exactly the encodings, and returns what they encode. */
  lemma AcceptExact(t: Codes, encoded: seq<byte>, decoded: seq<byte>)
    requires Sound(t)
    ensures Decode(t, encoded) == Ok(decoded) <==> IsEncoding(t, OctetBits(encoded), decoded)
  {
    var b := OctetBits(encoded);
    if Decode(t, encoded) == Ok(decoded) {
      ScanSound(t, [], b);
      assert [] + b == b;
    }
    if IsEncoding(t, b, decoded) {
      var n :| n <= 7 && b == EncodeBits(t, decoded) + Ones(n);
      ScanEncoded(t, decoded, Ones(n));
      assert Ones(0) == [];
      ScanOnes(t, 0, n);
      assert decoded + [] == decoded;
    }
  }

  /** Because the code is complete, no input ever reaches the invalid-code error. */
  lemma {:induction false} NeverInvalid(t: Codes, partial: BitString, rest: BitString)
    requires Sound(t)
    requires forall s :: 0 <= s < 257 ==> !(Word(t, s) <= partial)
    ensures Scan(t, partial, rest) != Err(InvalidHuffmanCode)
    decreases |rest|
  {
    if rest != [] {
      var word := partial + [rest[0]];
      SymbolForWord(t, word);
      IsPrefixWord(t, word);
      match SymbolFor(t, Value(word), |word|) {
        case Some(s) =>
          NeverInvalid(t, [], rest[1..]);
        case None =>
          forall s | 0 <= s < 257
            ensures !(Word(t, s) <= word)
          {
            var w := Word(t, s);
            assert |w| < |word| && w <= word ==> w <= partial;
            assert |w| == |word| && w <= word ==> w == word;
          }
          assert Follows(t, word);
          NeverInvalid(t, word, rest[1..]);
      }
    }
  }

  /** Codewords of octets, then the codeword of EOS. */
  ghost predicate HasEos(t: Codes, b: BitString)
    requires |t| == 257
  {
    exists decoded: seq<byte> :: EncodeBits(t, decoded) + Word(t, EOS) <= b
  }

  lemma HasEosCons(t: Codes, s: byte, b: BitString)
    requires |t| == 257 && HasEos(t, b)
    ensures HasEos(t, Word(t, s) + b)
  {
    var decoded: seq<byte> :| EncodeBits(t, decoded) + Word(t, EOS) <= b;
    EncodeBitsCons(t, s, decoded);
    Assoc(Word(t, s), EncodeBits(t, decoded), Word(t, EOS));
    var d := EncodeBits(t, decoded) + Word(t, EOS);
    assert Word(t, s) + b == (Word(t, s) + d) + b[|d|..];
  }

  lemma {:induction false} EosSound(t: Codes, partial: BitString, rest: BitString)
    requires Sound(t)
    requires Scan(t, partial, rest) == Err(EosSymbol)
    ensures HasEos(t, partial + rest)
    decreases |rest|
  {
    if rest == [] {
      assert false;
    } else {
      var word := partial + [rest[0]];
      SymbolForWord(t, word);
      SplitFirst(partial, rest);
      match SymbolFor(t, Value(word), |word|) {
        case Some(s) =>
          if s == EOS {
            assert EncodeBits(t, []) + word == word;
          } else {
            EosSound(t, [], rest[1..]);
            assert [] + rest[1..] == rest[1..];
            HasEosCons(t, s, rest[1..]);
          }
        case None =>
          EosSound(t, word, rest[1..]);
      }
    }
  }

  /**
   * Rejection is exact too: EOS is reported exactly when its codeword follows codewords of
   * octets, and the only other failure is bad padding.
   */
  lemma RejectExact(t: Codes, encoded: seq<byte>)
    requires Sound(t)
    ensures Decode(t, encoded) == Err(EosSymbol) <==> HasEos(t, OctetBits(encoded))
    ensures Decode(t, encoded) != Err(InvalidHuffmanCode)
  {
    var b := OctetBits(encoded);
    NeverInvalid(t, [], b);
    if Decode(t, encoded) == Err(EosSymbol) {
      EosSound(t, [], b);
      assert [] + b == b;
    }
    if HasEos(t, b) {
      var decoded: seq<byte> :| EncodeBits(t, decoded) + Word(t, EOS) <= b;
      var tail := b[|EncodeBits(t, decoded) + Word(t, EOS)|..];
      assert b == (EncodeBits(t, decoded) + Word(t, EOS)) + tail;
      Assoc(EncodeBits(t, decoded), Word(t, EOS), tail);
      ScanEncoded(t, decoded, Word(t, EOS) + tail);
      ScanWhole(t, EOS, tail);
    }
  }

  // ---- Coding is a bijection ----

  lemma PaddingUnique(length: nat, n: nat)
    requires n <= 7 && (length + n) % 8 == 0
    ensures n == Padding(length)
  {
  }

  lemma EncodeIsEncoding(t: Codes, decoded: seq<byte>)
    requires |t| == 257
    ensures IsEncoding(t, OctetBits(Encode(t, decoded)), decoded)
  {
    var b := EncodeBits(t, decoded);
    OctetBitsPack(b + Ones(Padding(|b|)));
  }

  /** Decoding an encoding gives the octets back. */
  lemma RoundTrip(t: Codes, decoded: seq<byte>)
    requires Sound(t)
    ensures Decode(t, Encode(t, decoded)) == Ok(decoded)
  {
    EncodeIsEncoding(t, decoded);
    AcceptExact(t, Encode(t, decoded), decoded);
  }

  /** Encoding what an accepted input decodes to gives the input back: each string has one encoding. */
  lemma Reencode(t: Codes, encoded: seq<byte>)
    requires Sound(t) && Decode(t, encoded).Ok?
    ensures Encode(t, Decode(t, encoded).value) == encoded
  {
    var decoded := Decode(t, encoded).value;
    AcceptExact(t, encoded, decoded);
    var n :| n <= 7 && OctetBits(encoded) == EncodeBits(t, decoded) + Ones(n);
    PaddingUnique(|EncodeBits(t, decoded)|, n);
    PackOctetBits(encoded);
  }
}
