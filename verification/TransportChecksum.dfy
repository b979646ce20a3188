/** TCP and UDP checksums over IPv4 and IPv6 pseudoheaders, rewritten in place. */
module TransportChecksum {
  import opened Machine
  import opened InternetChecksum

  const TCP_PROTOCOL: byte := 6
  const UDP_PROTOCOL: byte := 17

  /** Where the checksum field begins in each header. */
  const TCP_FIELD := 16
  const UDP_FIELD := 6

  const UDP_HEADER := 8

  /** Where a datagram says how long it is. */
  const UDP_LENGTH := 4

  datatype ChecksumError = LengthTooLarge(maximum: nat, actual: nat)

  datatype DatagramError =
    | Truncated(minimum: nat, available: nat)
    | InvalidTotalLength(headerLength: nat, totalLength: nat)

  datatype UdpStatus = NotPresent | ChecksumValid | ChecksumInvalid

  function Field16(bytes: seq<byte>, at: nat): u16
    requires at + 2 <= |bytes|
  {
    256 * (bytes[at] as int) + bytes[at + 1]
  }

  /** The receiver's condition: everything covered sums to all ones. */
  predicate Verifies(header: Pseudoheader, bytes: seq<byte>)
    requires header.Valid() && |bytes| <= header.MaximumLength()
  {
    OnesComplement(Words(Covered(header, bytes))) == 0xFFFF
  }

  /** A pseudoheader always carries a protocol, so what it covers never sums to zero. */
  lemma CoveredPositive(header: Pseudoheader, bytes: seq<byte>)
    requires header.Valid() && header.protocol > 0 && |bytes| <= header.MaximumLength()
    ensures Words(Covered(header, bytes)) > 0
  {
    CoveredMeaning(header, bytes);
  }

  /** Verification is exact: it accepts precisely the messages whose covered words sum to a multiple of 65535. */
  lemma VerifiesExact(header: Pseudoheader, bytes: seq<byte>)
    requires header.Valid() && header.protocol > 0 && |bytes| <= header.MaximumLength()
    ensures Verifies(header, bytes) <==> Words(Covered(header, bytes)) % 65535 == 0
  {
    CoveredPositive(header, bytes);
    AllOnesExact(Words(Covered(header, bytes)));
  }

  /** The field a sender writes: the complement of the sum over a zeroed field, and for UDP never zero. */
  function Written(header: Pseudoheader, bytes: seq<byte>, at: nat, neverZero: bool): (field: u16)
    requires header.Valid() && |bytes| <= header.MaximumLength() && at + 2 <= |bytes|
  {
    var value := Complement(OnesComplement(Words(Covered(header, Splice(bytes, at, [0, 0])))));
    if neverZero && value == 0 then 0xFFFF else value
  }

  /** The field and the sum around it make all ones, but for the zero that UDP does not send. */
  lemma WrittenMeaning(header: Pseudoheader, bytes: seq<byte>, at: nat, neverZero: bool)
    requires header.Valid() && header.protocol > 0 && |bytes| <= header.MaximumLength() && at + 2 <= |bytes|
    ensures var field := Written(header, bytes, at, neverZero);
            var sum := OnesComplement(Words(Covered(header, Splice(bytes, at, [0, 0]))));
            if neverZero && sum == 0xFFFF then field == 0xFFFF else field + sum == 0xFFFF
  {
  }

  /** Whatever the field held before, what a sender writes verifies, for every payload and address. */
  lemma WrittenVerifies(header: Pseudoheader, bytes: seq<byte>, at: nat, neverZero: bool)
    requires header.Valid() && header.protocol > 0 && |bytes| <= header.MaximumLength()
    requires at % 2 == 0 && at + 2 <= |bytes|
    ensures var field := Written(header, bytes, at, neverZero);
            var sent := Splice(bytes, at, BigEndian16(field));
            && Verifies(header, sent) && Field16(sent, at) == field && (neverZero ==> field != 0)
  {
    var field := Written(header, bytes, at, neverZero);
    var zeroed, sent := Splice(bytes, at, [0, 0]), Splice(bytes, at, BigEndian16(field));
    WordsWithField(header.Octets(|bytes|), bytes, at, field);
    CoveredPositive(header, zeroed);
    ComplementCompletes(Words(Covered(header, zeroed)));
  }

  /** Octets with one word changed sum to their words with that word changed. */
  lemma ChangedWords(octets: seq<byte>, at: nat, word: u16)
    requires at % 2 == 0 && at + 2 <= |octets|
    ensures Words(Splice(octets, at, BigEndian16(word))) == Words(octets) - Field16(octets, at) + word
  {
    var was := Field16(octets, at);
    assert Splice(octets, at, BigEndian16(was)) == octets;
    hide Splice;
    hide Words;
    WordsWithField([], octets, at, was);
    WordsWithField([], octets, at, word);
    assert forall x: seq<byte> :: [] + x == x;
  }

  lemma SameWord(was: u16, word: u16)
    ensures (word - was) % 65535 == 0 <==> word == was || word == was + 65535 || was == word + 65535
  {
  }

  lemma SameMultiple(a: nat, b: nat)
    requires a % 65535 == 0
    ensures b % 65535 == 0 <==> (b - a) % 65535 == 0
  {
  }

  /**
   * After a change of one 16-bit word verification fails unless the change exchanges the two representations
   * of zero.
   */
  lemma ChangedWordCaught(header: Pseudoheader, bytes: seq<byte>, at: nat, word: u16)
    requires header.Valid() && header.protocol > 0 && |bytes| <= header.MaximumLength()
    requires at % 2 == 0 && at + 2 <= |bytes| && Verifies(header, bytes)
    ensures Verifies(header, Splice(bytes, at, BigEndian16(word))) <==>
            || word == Field16(bytes, at) || (word == 0 && Field16(bytes, at) == 0xFFFF)
            || (word == 0xFFFF && Field16(bytes, at) == 0)
  {
    hide Splice;
    hide Words;
    hide Verifies;
    hide Covered;
    hide Field16;
    var changed := Splice(bytes, at, BigEndian16(word));
    VerifiesExact(header, bytes);
    VerifiesExact(header, changed);
    CoveredMeaning(header, bytes);
    CoveredMeaning(header, changed);
    ChangedWords(bytes, at, word);
    SameMultiple(Words(Covered(header, bytes)), Words(Covered(header, changed)));
    SameWord(Field16(bytes, at), word);
  }

  /** One word of one address is changed. */
  predicate Readdressed(header: Pseudoheader, other: Pseudoheader, at: nat, word: u16, source: bool)
    requires header.Valid() && at % 2 == 0 && at + 2 <= |header.source|
  {
    && other.Valid() && other.V4? == header.V4? && other.protocol == header.protocol
    && other.source == (if source then Splice(header.source, at, BigEndian16(word)) else header.source)
    && other.destination == (if source then header.destination else Splice(header.destination, at, BigEndian16(word)))
  }

  /** A message that reaches another address than it was meant for is caught like a change of the message itself. */
  lemma ChangedAddressCaught(header: Pseudoheader, other: Pseudoheader, bytes: seq<byte>, at: nat, word: u16,
                             source: bool)
    requires header.Valid() && header.protocol > 0 && |bytes| <= header.MaximumLength()
    requires at % 2 == 0 && at + 2 <= |header.source| && Readdressed(header, other, at, word, source)
    requires Verifies(header, bytes)
    ensures var was := Field16(if source then header.source else header.destination, at);
            Verifies(other, bytes) <==>
              word == was || (word == 0 && was == 0xFFFF) || (word == 0xFFFF && was == 0)
  {
    hide Splice;
    hide Words;
    hide Verifies;
    hide Covered;
    hide Field16;
    var address := if source then header.source else header.destination;
    VerifiesExact(header, bytes);
    VerifiesExact(other, bytes);
    CoveredMeaning(header, bytes);
    CoveredMeaning(other, bytes);
    ChangedWords(address, at, word);
    SameMultiple(Words(Covered(header, bytes)), Words(Covered(other, bytes)));
    SameWord(Field16(address, at), word);
  }

  /** The sum does not tell the two addresses apart: a reply that keeps the field verifies like the message. */
  lemma SwappedAddressesUnseen(header: Pseudoheader, bytes: seq<byte>)
    requires header.Valid() && header.protocol > 0 && |bytes| <= header.MaximumLength()
    ensures var swapped := header.(source := header.destination, destination := header.source);
            swapped.Valid() && (Verifies(swapped, bytes) <==> Verifies(header, bytes))
  {
    var swapped := header.(source := header.destination, destination := header.source);
    CoveredMeaning(header, bytes);
    CoveredMeaning(swapped, bytes);
    VerifiesExact(header, bytes);
    VerifiesExact(swapped, bytes);
  }

  /** The words of both addresses, and of a message's length. */
  function AddressWords(header: Pseudoheader): nat { Words(header.source) + Words(header.destination) }

  function LengthWords(bytes: seq<byte>): nat { |bytes| / 0x1_0000 + |bytes| % 0x1_0000 }

  // ---- TCP ----

  /** The whole sum of a segment, its checksum field included. */
  method TcpSum(header: Pseudoheader, bytes: seq<byte>) returns (r: Result<u32, ChecksumError>)
    requires header.Valid() && header.protocol == TCP_PROTOCOL
    ensures |bytes| > header.MaximumLength() ==> r == Err(LengthTooLarge(header.MaximumLength(), |bytes|))
    ensures |bytes| <= header.MaximumLength() ==> r == Ok(OnesComplement(Words(Covered(header, bytes))))
  {
    if |bytes| > header.MaximumLength() {
      return Err(LengthTooLarge(header.MaximumLength(), |bytes|));
    }
    var sum := AddPseudoheader(header, |bytes|);
    sum := AddMore(sum, header.Octets(|bytes|), bytes);
    return Ok(sum);
  }

  method TcpChecksumIsValid(header: Pseudoheader, bytes: seq<byte>) returns (r: Result<bool, ChecksumError>)
    requires header.Valid() && header.protocol == TCP_PROTOCOL
    ensures |bytes| > header.MaximumLength() ==> r == Err(LengthTooLarge(header.MaximumLength(), |bytes|))
    ensures |bytes| <= header.MaximumLength() ==> r == Ok(Verifies(header, bytes))
    ensures r.Ok? <==> |bytes| < (if header.V4? then 0x1_0000 else 0x1_0000_0000)
    ensures r.Ok? ==> (r.value <==> (AddressWords(header) + 6 + LengthWords(bytes) + Words(bytes)) % 65535 == 0)
  {
    var sum := TcpSum(header, bytes);
    if sum.Err? {
      return Err(sum.error);
    }
    VerifiesExact(header, bytes);
    CoveredMeaning(header, bytes);
    return Ok(sum.value == 0xFFFF);
  }

  /** Sums around the field as if it were zero, in three pieces, and writes the complement there. */
  method UpdateTcpChecksum(header: Pseudoheader, bytes: array<byte>) returns (r: Result<(), ChecksumError>)
    requires header.Valid() && header.protocol == TCP_PROTOCOL
    requires bytes.Length >= 20
    modifies bytes
    ensures r == if bytes.Length > header.MaximumLength()
            then Err(LengthTooLarge(header.MaximumLength(), bytes.Length)) else Ok(())
    ensures r.Ok? <==> bytes.Length < (if header.V4? then 0x1_0000 else 0x1_0000_0000)
    ensures r.Err? ==> bytes[..] == old(bytes[..])
    ensures r.Ok? ==>
              && bytes[..] == Splice(old(bytes[..]), TCP_FIELD,
                                     BigEndian16(Written(header, old(bytes[..]), TCP_FIELD, false)))
              && Verifies(header, bytes[..])
    ensures bytes[..16] == old(bytes[..16]) && bytes[18..] == old(bytes[18..])
  {
    if bytes.Length > header.MaximumLength() {
      return Err(LengthTooLarge(header.MaximumLength(), bytes.Length));
    }
    hide OnesComplement;
    hide Words;
    ghost var before, octets := bytes[..], header.Octets(bytes.Length);
    var sum := AddPseudoheader(header, bytes.Length);
    sum := AddMore(sum, octets, bytes[..TCP_FIELD]);
    sum := AddMore(sum, octets + before[..TCP_FIELD], [0, 0]);
    sum := AddMore(sum, octets + before[..TCP_FIELD] + [0, 0], bytes[TCP_FIELD + 2..]);
    assert octets + before[..TCP_FIELD] + [0, 0] + before[TCP_FIELD + 2..]
           == Covered(header, Splice(before, TCP_FIELD, [0, 0]));
    WrittenVerifies(header, before, TCP_FIELD, false);
    CopyFromSlice(bytes, TCP_FIELD, BigEndian16(Complement(sum)));
    return Ok(());
  }

  // ---- UDP ----

  /** A datagram whose length field is its length, as validation leaves it. */
  predicate ValidDatagram(bytes: seq<byte>) {
    UDP_HEADER <= |bytes| <= 0xFFFF && Field16(bytes, UDP_LENGTH) == |bytes|
  }

  /** How much of a buffer its datagram takes up, by its length field. */
  function DatagramLength(buffer: seq<byte>): (r: Result<nat, DatagramError>)
    ensures r.Ok? ==> r.value <= |buffer| && ValidDatagram(buffer[..r.value])
  {
    if |buffer| < UDP_HEADER then Err(Truncated(UDP_HEADER, |buffer|))
    else
      var length := Field16(buffer, UDP_LENGTH);
      if length < UDP_HEADER then Err(InvalidTotalLength(UDP_HEADER, length))
      else if |buffer| < length then Err(Truncated(length, |buffer|))
      else Ok(length)
  }

  /** A buffer holds a datagram of a length exactly when that much of it is there and says so in its length field. */
  lemma DatagramLengthExact(buffer: seq<byte>, length: nat)
    ensures DatagramLength(buffer) == Ok(length) <==>
            8 <= length <= |buffer| && Field16(buffer, 4) == length
    ensures match DatagramLength(buffer)
            case Ok(_) => true
            case Err(Truncated(required, available)) =>
              available == |buffer| < required == (if |buffer| < 8 then 8 else Field16(buffer, 4))
            case Err(InvalidTotalLength(minimum, actual)) =>
              |buffer| >= 8 == minimum && actual == Field16(buffer, 4) < 8
  {
  }

  method UdpSum(header: Pseudoheader, bytes: seq<byte>) returns (sum: u16)
    requires header.Valid() && |bytes| <= 0xFFFF
    ensures sum == OnesComplement(Words(Covered(header, bytes)))
  {
    sum := AddPseudoheader(header, |bytes|);
    sum := AddMore(sum, header.Octets(|bytes|), bytes);
  }

  /** What a datagram's checksum field says: a zero field is never valid, and over IPv4 it means that there is none. */
  function UdpStatusOf(header: Pseudoheader, bytes: seq<byte>): UdpStatus
    requires header.Valid() && UDP_HEADER <= |bytes| <= header.MaximumLength()
  {
    if Field16(bytes, UDP_FIELD) == 0 then NotPresent
    else if Verifies(header, bytes) then ChecksumValid
    else ChecksumInvalid
  }

  /** What a receiver makes of a buffer: the datagram that its length field bounds, and that datagram's status. */
  function ReceivedStatus(header: Pseudoheader, buffer: seq<byte>): Result<UdpStatus, DatagramError>
    requires header.Valid()
  {
    match DatagramLength(buffer)
    case Err(e) => Err(e)
    case Ok(length) => Ok(UdpStatusOf(header, buffer[..length]))
  }

  /**
   * What becomes of a valid datagram when one word of it, other than its length, changes: a checksum that becomes
   * zero is taken for no checksum at all, an exchange of the two zeros elsewhere goes unseen, and every other change
   * is caught.
   */
  lemma ChangedDatagram(header: Pseudoheader, buffer: seq<byte>, at: nat, word: u16)
    requires header.Valid() && header.protocol == UDP_PROTOCOL
    requires ReceivedStatus(header, buffer) == Ok(ChecksumValid)
    requires at % 2 == 0 && at + 2 <= DatagramLength(buffer).value && at != UDP_LENGTH
    ensures var was, after := Field16(buffer, at), ReceivedStatus(header, Splice(buffer, at, BigEndian16(word)));
            && after.Ok? && (after.value.NotPresent? <==> at == UDP_FIELD && word == 0)
            && (after.value.ChecksumValid? <==>
                  word == was || (at != UDP_FIELD && ((word == 0 && was == 0xFFFF) || (word == 0xFFFF && was == 0))))
  {
    var length := DatagramLength(buffer).value;
    var changed := Splice(buffer, at, BigEndian16(word));
    ChangedWordCaught(header, buffer[..length], at, word);
    assert changed[..length] == Splice(buffer[..length], at, BigEndian16(word));
    assert Field16(changed, UDP_LENGTH) == length;
    assert Field16(changed, at) == word;
    assert at != UDP_FIELD ==> Field16(changed, UDP_FIELD) == Field16(buffer, UDP_FIELD);
  }

  /** The words of what a changed length bounds, with the length changed. */
  lemma ChangedLengthWords(buffer: seq<byte>, word: u16)
    requires UDP_HEADER <= word <= |buffer|
    ensures var changed := Splice(buffer, UDP_LENGTH, BigEndian16(word));
            Words(changed[..word]) == Words(buffer[..word]) - Field16(buffer, UDP_LENGTH) + word
  {
    var kept := buffer[..word];
    assert Splice(buffer, UDP_LENGTH, BigEndian16(word))[..word] == Splice(kept, UDP_LENGTH, BigEndian16(word));
    ChangedWords(kept, UDP_LENGTH, word);
  }

  /**
   * A changed length bounds another datagram. It is refused when it is less than a header or more than the buffer;
   * otherwise it goes unseen exactly when twice the change of the length, and the change in the sum of the words it
   * bounds, come to a multiple of 65535.
   */
  lemma ChangedLength(header: Pseudoheader, buffer: seq<byte>, word: u16)
    requires header.Valid() && header.protocol == UDP_PROTOCOL
    requires ReceivedStatus(header, buffer) == Ok(ChecksumValid)
    ensures var was := DatagramLength(buffer).value;
            var after := ReceivedStatus(header, Splice(buffer, UDP_LENGTH, BigEndian16(word)));
            if word < UDP_HEADER then after == Err(InvalidTotalLength(UDP_HEADER, word))
            else if word > |buffer| then after == Err(Truncated(word, |buffer|))
            else after == Ok(if (2 * (word - was) + Words(buffer[..word]) - Words(buffer[..was])) % 65535 == 0
                             then ChecksumValid else ChecksumInvalid)
  {
    var was, changed := DatagramLength(buffer).value, Splice(buffer, UDP_LENGTH, BigEndian16(word));
    assert Field16(changed, UDP_LENGTH) == word;
    assert Field16(changed, UDP_FIELD) == Field16(buffer, UDP_FIELD);
    if UDP_HEADER <= word <= |buffer| {
      ChangedLengthVerifies(header, buffer, was, word);
    }
  }

  lemma ChangedLengthVerifies(header: Pseudoheader, buffer: seq<byte>, was: u16, word: u16)
    requires header.Valid() && header.protocol > 0
    requires UDP_HEADER <= was <= |buffer| && UDP_HEADER <= word <= |buffer|
    requires Field16(buffer, UDP_LENGTH) == was && Verifies(header, buffer[..was])
    ensures Verifies(header, Splice(buffer, UDP_LENGTH, BigEndian16(word))[..word]) <==>
            (2 * (word - was) + Words(buffer[..word]) - Words(buffer[..was])) % 65535 == 0
  {
    hide Splice;
    hide Words;
    hide Verifies;
    hide Covered;
    hide Field16;
    var before, after := buffer[..was], Splice(buffer, UDP_LENGTH, BigEndian16(word))[..word];
    VerifiesExact(header, before);
    VerifiesExact(header, after);
    CoveredMeaning(header, before);
    CoveredMeaning(header, after);
    ChangedLengthWords(buffer, word);
    SameMultiple(Words(Covered(header, before)), Words(Covered(header, after)));
  }

  /** A valid datagram whose last four octets sum to minus twice their number, modulo 65535. */
  const SHORTENABLE: seq<byte> := [0, 0, 0, 0, 0, 12, 0xFF, 0xDE, 0xFF, 0xF7, 0, 0]

  const NOWHERE := V4([0, 0, 0, 0], [0, 0, 0, 0], UDP_PROTOCOL)

  lemma ShortenableWords()
    ensures Words(SHORTENABLE[..8]) == 12 + 0xFFDE
    ensures Words(SHORTENABLE[..12]) == 12 + 0xFFDE + 0xFFF7
  {
    var head, tail: seq<byte> := [0, 0, 0, 0, 0, 12, 0xFF, 0xDE], [0xFF, 0xF7, 0, 0];
    assert SHORTENABLE[..8] == head && SHORTENABLE[..12] == head + tail;
    WordsConcat(head, tail);
  }

  lemma NowhereWords()
    ensures Words([0, 0, 0, 0]) == 0
  {
  }

  lemma ShortenableValid()
    ensures ReceivedStatus(NOWHERE, SHORTENABLE) == Ok(ChecksumValid) && DatagramLength(SHORTENABLE) == Ok(12)
  {
    ShortenableWords();
    NowhereWords();
    hide Words;
    CoveredMeaning(NOWHERE, SHORTENABLE[..12]);
    VerifiesExact(NOWHERE, SHORTENABLE[..12]);
  }

  /** A shortened length can go unseen: the receiver takes the first eight octets for a valid datagram. */
  lemma ShorterLengthUnseen()
    ensures ReceivedStatus(NOWHERE, SHORTENABLE) == Ok(ChecksumValid) && DatagramLength(SHORTENABLE) == Ok(12)
    ensures var changed := Splice(SHORTENABLE, UDP_LENGTH, BigEndian16(8));
            ReceivedStatus(NOWHERE, changed) == Ok(ChecksumValid) && DatagramLength(changed) == Ok(8)
  {
    ShortenableValid();
    ShortenableWords();
    hide Words;
    hide ReceivedStatus;
    ChangedLength(NOWHERE, SHORTENABLE, 8);
  }

  /** Over IPv4 a zero field means that there is no checksum. */
  method UdpChecksumStatusV4(header: Pseudoheader, bytes: seq<byte>) returns (status: UdpStatus)
    requires header.Valid() && header.V4? && header.protocol == UDP_PROTOCOL && ValidDatagram(bytes)
    ensures status == UdpStatusOf(header, bytes)
    ensures status.NotPresent? <==> Field16(bytes, UDP_FIELD) == 0
    ensures status.ChecksumValid? <==>
              Field16(bytes, 6) != 0 && (AddressWords(header) + 17 + LengthWords(bytes) + Words(bytes)) % 65535 == 0
  {
    if Field16(bytes, UDP_FIELD) == 0 {
      return NotPresent;
    }
    var sum := UdpSum(header, bytes);
    VerifiesExact(header, bytes);
    CoveredMeaning(header, bytes);
    return if sum == 0xFFFF then ChecksumValid else ChecksumInvalid;
  }

  /** Over IPv6 a checksum is required. */
  method UdpChecksumIsValidV6(header: Pseudoheader, bytes: seq<byte>) returns (valid: bool)
    requires header.Valid() && header.V6? && header.protocol == UDP_PROTOCOL && ValidDatagram(bytes)
    ensures valid <==> UdpStatusOf(header, bytes).ChecksumValid?
    ensures valid <==>
              Field16(bytes, 6) != 0 && (AddressWords(header) + 17 + LengthWords(bytes) + Words(bytes)) % 65535 == 0
  {
    if Field16(bytes, UDP_FIELD) == 0 {
      return false;
    }
    var sum := UdpSum(header, bytes);
    VerifiesExact(header, bytes);
    CoveredMeaning(header, bytes);
    return sum == 0xFFFF;
  }

  /** Zeroes the field, sums, and writes the complement, or all ones where that would be zero. */
  method UpdateUdpChecksum(header: Pseudoheader, bytes: array<byte>)
    requires header.Valid() && header.protocol == UDP_PROTOCOL && ValidDatagram(bytes[..])
    modifies bytes
    ensures bytes[..] == Splice(old(bytes[..]), UDP_FIELD,
                                   BigEndian16(Written(header, old(bytes[..]), UDP_FIELD, true)))
    ensures ValidDatagram(bytes[..]) && Field16(bytes[..], UDP_FIELD) != 0 && Verifies(header, bytes[..])
    ensures bytes[..6] == old(bytes[..6]) && bytes[8..] == old(bytes[8..])
  {
    ghost var before := bytes[..];
    WrittenVerifies(header, before, UDP_FIELD, true);
    CopyFromSlice(bytes, UDP_FIELD, [0, 0]);
    var sum := UdpSum(header, bytes[..]);
    var value := Complement(sum);
    CopyFromSlice(bytes, UDP_FIELD, BigEndian16(if value == 0 then 0xFFFF else value));
    FieldKept(before, BigEndian16(Written(header, before, UDP_FIELD, true)));
  }

  lemma FieldKept(before: seq<byte>, field: seq<byte>)
    requires ValidDatagram(before) && |field| == 2
    ensures ValidDatagram(Splice(before, UDP_FIELD, field))
    ensures Splice(Splice(before, UDP_FIELD, [0, 0]), UDP_FIELD, field) == Splice(before, UDP_FIELD, field)
  {
  }
}
