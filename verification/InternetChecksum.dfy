/** The one's-complement sum of RFC 1071, and the pseudoheaders of RFC 9293 and RFC 768 over it. */
module InternetChecksum {
  import opened Machine

  // ---- What a sum means ----

  /** The plain sum of the 16-bit words, the last one padded with a zero octet. */
  function Words(bytes: seq<byte>): nat
    decreases |bytes|
  {
    if bytes == [] then 0
    else if |bytes| == 1 then 256 * bytes[0]
    else 256 * bytes[0] + bytes[1] + Words(bytes[2..])
  }

  /** The 16-bit one's-complement representative: zero only for zero, otherwise in 1..65535 modulo 65535. */
  function OnesComplement(total: nat): u16 {
    if total == 0 then 0 else (total - 1) % 65535 + 1
  }

  /** Adding after reducing is adding before reducing. */
  lemma ReduceThenAdd(a: nat, b: nat)
    ensures OnesComplement(OnesComplement(a) + b) == OnesComplement(a + b)
  {
    if a > 0 {
      var q := (a - 1) / 65535;
      assert a + b - 1 == OnesComplement(a) + b - 1 + 65535 * q;
      ShiftModulus(OnesComplement(a) + b - 1, q);
    }
  }

  lemma {:induction false} ShiftModulus(x: nat, q: nat)
    ensures (x + 65535 * q) % 65535 == x % 65535
  {
    if q > 0 {
      ShiftModulus(x, q - 1);
      assert x + 65535 * q == (x + 65535 * (q - 1)) + 65535;
    }
  }

  /** Pieces of even length may be summed separately. */
  lemma {:induction false} WordsConcat(a: seq<byte>, b: seq<byte>)
    requires |a| % 2 == 0
    ensures Words(a + b) == Words(a) + Words(b)
    decreases |a|
  {
    if a == [] {
      assert a + b == b;
    } else {
      assert (a + b)[2..] == a[2..] + b;
      WordsConcat(a[2..], b);
    }
  }

  // ---- The loops ----

  /** Folds the carries back in until none is left. */
  method Fold(accumulator: u32) returns (folded: u16)
    ensures folded == OnesComplement(accumulator)
  {
    var sum: u32 := accumulator;
    while sum / 0x1_0000 != 0
      invariant OnesComplement(sum) == OnesComplement(accumulator)
      decreases sum
    {
      FoldStep(sum);
      sum := sum % 0x1_0000 + sum / 0x1_0000;
    }
    return sum;
  }

  lemma FoldStep(sum: u32)
    requires sum / 0x1_0000 != 0
    ensures var next := sum % 0x1_0000 + sum / 0x1_0000;
            next < sum && OnesComplement(next) == OnesComplement(sum)
  {
    var q, r := sum / 0x1_0000, sum % 0x1_0000;
    assert sum - 1 == (q + r - 1) + 65535 * q;
    ShiftModulus(q + r - 1, q);
  }

  function WordAt(bytes: seq<byte>, index: nat): u16
    requires index < |bytes|
  {
    256 * (bytes[index] as int) + (if index + 1 < |bytes| then bytes[index + 1] else 0)
  }

  /**
   * Adds wire-order octets. Only the first addition could overflow 32 bits, and it does not
   * exactly when its sum fits; every later one starts from a folded sum.
   */
  method AddBytes(accumulator: u32, bytes: seq<byte>) returns (sum: u32)
    requires |bytes| > 0 ==> accumulator + WordAt(bytes, 0) <= U32_MAX
    ensures sum == if |bytes| == 0 then accumulator else OnesComplement(accumulator + Words(bytes))
  {
    hide OnesComplement;
    sum := accumulator;
    var index := 0;
    while index < |bytes|
      invariant 0 <= index && index % 2 == 0 && (|bytes| == 0 ==> index == 0)
      invariant if index == 0 then sum == accumulator else sum <= 0xFFFF
      invariant OnesComplement(sum + WordsFrom(bytes, index)) == OnesComplement(accumulator + WordsFrom(bytes, 0))
      decreases |bytes| - index
    {
      var low: int := if index + 1 < |bytes| then bytes[index + 1] else 0;
      var word: u16 := 256 * bytes[index] + low;
      assert word == WordAt(bytes, index);
      WordsNext(bytes, index);
      ReduceThenAdd(sum + word, WordsFrom(bytes, index + 2));
      sum := Fold(sum + word);
      index := index + 2;
    }
    assert bytes[0..] == bytes;
    if |bytes| > 0 {
      SmallUnchanged(sum);
    }
  }

  function WordsFrom(bytes: seq<byte>, index: nat): nat {
    if index < |bytes| then Words(bytes[index..]) else 0
  }

  lemma WordsNext(bytes: seq<byte>, index: nat)
    requires index < |bytes|
    ensures WordsFrom(bytes, index)
            == WordAt(bytes, index) + WordsFrom(bytes, index + 2)
  {
    assert index + 2 <= |bytes| ==> bytes[index..][2..] == bytes[index + 2..];
  }

  lemma SmallUnchanged(x: u16)
    ensures OnesComplement(x) == x
  {
  }

  /** The checksum that completes a sum: it brings the whole to all ones. */
  function Complement(sum: u16): u16 { 0xFFFF - sum }

  lemma ComplementCompletes(total: nat)
    ensures OnesComplement(total + Complement(OnesComplement(total))) == 0xFFFF
    ensures total > 0 && Complement(OnesComplement(total)) == 0 ==> OnesComplement(total + 0xFFFF) == 0xFFFF
  {
    if total > 0 {
      var q := (total - 1) / 65535;
      assert total + Complement(OnesComplement(total)) - 1 == 65534 + 65535 * q;
      ShiftModulus(65534, q);
      ShiftModulus(65534, q + 1);
    }
  }

  /** A sum is all ones exactly when the total is a positive multiple of 65535. */
  lemma AllOnesExact(total: nat)
    ensures OnesComplement(total) == 0xFFFF <==> total > 0 && total % 65535 == 0
  {
    if total > 0 {
      var q, r := (total - 1) / 65535, (total - 1) % 65535;
      if r == 65534 {
        assert total == 65535 * (q + 1);
        ShiftModulus(0, q + 1);
      } else {
        assert total == r + 1 + 65535 * q;
        ShiftModulus(r + 1, q);
      }
    }
  }

  // ---- Big-endian octets ----

  lemma WordsOf16(x: u16)
    ensures Words(BigEndian16(x)) == x
  {
  }

  // ---- Pseudoheaders ----

  /** The addresses, the protocol and the length that the transport checksum also covers. */
  datatype Pseudoheader =
    | V4(source: seq<byte>, destination: seq<byte>, protocol: byte)
    | V6(source: seq<byte>, destination: seq<byte>, protocol: byte)
  {
    predicate Valid() {
      |source| == |destination| == if V4? then 4 else 16
    }

    function MaximumLength(): nat { if V4? then 0xFFFF else U32_MAX }

    /** The pseudoheader's octets, in the order in which they are summed. */
    function Octets(length: nat): (octets: seq<byte>)
      requires Valid() && length <= MaximumLength()
      ensures |octets| % 2 == 0
    {
      if V4? then source + destination + [0, protocol] + BigEndian16(length)
      else source + destination + BigEndian32(length) + [0, 0, 0, protocol]
    }
  }

  method AddPseudoheader(header: Pseudoheader, length: nat) returns (sum: u16)
    requires header.Valid() && length <= header.MaximumLength()
    ensures sum == OnesComplement(Words(header.Octets(length)))
  {
    var first := AddBytes(0, header.source);
    sum := first;
    sum := AddMore(sum, header.source, header.destination);
    if header.V4? {
      sum := AddMore(sum, header.source + header.destination, [0, header.protocol]);
      sum := AddMore(sum, header.source + header.destination + [0, header.protocol], BigEndian16(length));
    } else {
      sum := AddMore(sum, header.source + header.destination, BigEndian32(length));
      sum := AddMore(sum, header.source + header.destination + BigEndian32(length), [0, 0, 0, header.protocol]);
    }
  }

  /** Summing in pieces: the sum of what came before, then the next piece. */
  method AddMore(accumulator: u16, ghost before: seq<byte>, piece: seq<byte>) returns (sum: u16)
    requires |before| % 2 == 0 && accumulator == OnesComplement(Words(before))
    ensures sum == OnesComplement(Words(before + piece))
  {
    ReduceThenAdd(Words(before), Words(piece));
    WordsConcat(before, piece);
    sum := AddBytes(accumulator, piece);
  }

  /** All that a checksum covers. */
  function Covered(header: Pseudoheader, bytes: seq<byte>): seq<byte>
    requires header.Valid() && |bytes| <= header.MaximumLength()
  {
    header.Octets(|bytes|) + bytes
  }

  /** Writing a checksum over two zero octets at an even offset adds exactly its value. */
  lemma WordsWithField(prefix: seq<byte>, bytes: seq<byte>, at: nat, field: u16)
    requires |prefix| % 2 == 0 && at % 2 == 0 && at + 2 <= |bytes|
    ensures Words(prefix + Splice(bytes, at, BigEndian16(field))) == Words(prefix + Splice(bytes, at, [0, 0])) + field
  {
    var head, tail := bytes[..at], bytes[at + 2..];
    WordsConcat(prefix, Splice(bytes, at, BigEndian16(field)));
    WordsConcat(prefix, Splice(bytes, at, [0, 0]));
    WordsOf16(field);
    WordsOf16(0);
    WordsAround(head, BigEndian16(field), tail);
    WordsAround(head, [0, 0], tail);
  }

  lemma WordsAround(head: seq<byte>, field: seq<byte>, tail: seq<byte>)
    requires |head| % 2 == 0 && |field| == 2
    ensures Words(head + field + tail) == Words(head) + Words(field) + Words(tail)
  {
    WordsConcat(head, field);
    WordsConcat(head + field, tail);
  }

  lemma WordsOfTwo(a: byte, b: byte)
    ensures Words([a, b]) == 256 * a + b
  {
    assert [a, b][2..] == [];
  }

  lemma WordsOfPieces(a: seq<byte>, b: seq<byte>, c: seq<byte>, d: seq<byte>)
    requires |a| % 2 == 0 && |b| % 2 == 0 && |c| % 2 == 0
    ensures Words(a + b + c + d) == Words(a) + Words(b) + Words(c) + Words(d)
  {
    hide Words;
    WordsConcat(a, b);
    WordsConcat(a + b, c);
    WordsConcat(a + b + c, d);
  }

  lemma SummedV4(source: seq<byte>, destination: seq<byte>, protocol: byte, length: u16)
    requires |source| % 2 == 0 && |destination| % 2 == 0
    ensures Words(source + destination + [0, protocol] + BigEndian16(length))
            == Words(source) + Words(destination) + protocol + length
  {
    WordsOf16(length);
    WordsOfTwo(0, protocol);
    WordsOfPieces(source, destination, [0, protocol], BigEndian16(length));
    hide Words;
    hide BigEndian16;
  }

  lemma WordsOf32(x: u32)
    ensures Words(BigEndian32(x)) == x / 0x1_0000 + x % 0x1_0000
  {
    WordsOf16(x / 0x1_0000);
    WordsOf16(x % 0x1_0000);
    hide Words;
    WordsConcat(BigEndian16(x / 0x1_0000), BigEndian16(x % 0x1_0000));
  }

  lemma WordsOfNext(protocol: byte)
    ensures Words([0, 0, 0, protocol]) == protocol
  {
    WordsOfTwo(0, 0);
    WordsOfTwo(0, protocol);
    WordsConcat([0, 0], [0, protocol]);
    assert [0, 0] + [0, protocol] == [0, 0, 0, protocol];
  }

  lemma SummedV6(source: seq<byte>, destination: seq<byte>, protocol: byte, length: u32)
    requires |source| % 2 == 0 && |destination| % 2 == 0
    ensures Words(source + destination + BigEndian32(length) + [0, 0, 0, protocol])
            == Words(source) + Words(destination) + protocol + length / 0x1_0000 + length % 0x1_0000
  {
    WordsOf32(length);
    WordsOfNext(protocol);
    WordsOfPieces(source, destination, BigEndian32(length), [0, 0, 0, protocol]);
    hide Words;
    hide BigEndian32;
  }

  /** The words of a pseudoheader: both addresses, the protocol and the length. */
  lemma PseudoheaderWords(header: Pseudoheader, length: nat)
    requires header.Valid() && length <= header.MaximumLength()
    ensures Words(header.Octets(length))
            == Words(header.source) + Words(header.destination) + header.protocol
               + length / 0x1_0000 + length % 0x1_0000
  {
    hide Words;
    if header.V4? {
      SummedV4(header.source, header.destination, header.protocol, length);
    } else {
      SummedV6(header.source, header.destination, header.protocol, length);
    }
  }

  /** What a checksum covers: both addresses, the protocol, the length and every octet of the message. */
  lemma CoveredMeaning(header: Pseudoheader, bytes: seq<byte>)
    requires header.Valid() && |bytes| <= header.MaximumLength()
    ensures Words(Covered(header, bytes))
            == Words(header.source) + Words(header.destination) + header.protocol
               + |bytes| / 0x1_0000 + |bytes| % 0x1_0000 + Words(bytes)
  {
    hide Words;
    PseudoheaderWords(header, |bytes|);
    WordsConcat(header.Octets(|bytes|), bytes);
  }

  /** The example of RFC 1071 section 3. */
  lemma Rfc1071Example()
    ensures Words([0x00, 0x01, 0xF2, 0x03, 0xF4, 0xF5, 0xF6, 0xF7]) == 0x2_DDF0
    ensures OnesComplement(0x2_DDF0) == 0xDDF2 && Complement(0xDDF2) == 0x220D
  {
    WordsConcat([0x00, 0x01, 0xF2, 0x03], [0xF4, 0xF5, 0xF6, 0xF7]);
    assert [0x00, 0x01, 0xF2, 0x03] + [0xF4, 0xF5, 0xF6, 0xF7] == [0x00, 0x01, 0xF2, 0x03, 0xF4, 0xF5, 0xF6, 0xF7];
    assert Words([0x00, 0x01, 0xF2, 0x03]) == 0x0001 + 0xF203;
    assert Words([0xF4, 0xF5, 0xF6, 0xF7]) == 0xF4F5 + 0xF6F7;
  }
}
