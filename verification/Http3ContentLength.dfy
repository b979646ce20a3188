/** Content-Length in decoded header sections: list members, decimal numbers, and what they agree on. */
module Http3ContentLength {
  import opened Machine

  datatype LengthError =
    | InvalidContentLength(fieldIndex: nat, memberIndex: nat)
    | ContentLengthOverflow(fieldIndex: nat, memberIndex: nat)
    | ConflictingContentLength(fieldIndex: nat, memberIndex: nat, expected: u64, actual: u64)

  const COMMA: byte := 44

  predicate IsContentLength(f: Field) { f.name == Ascii("content-length") }

  // ---- Decimal numbers ----

  predicate IsDigit(b: byte) { 48 <= b <= 57 }

  predicate Digits(value: seq<byte>) {
    forall i :: 0 <= i < |value| ==> IsDigit(value[i])
  }

  function DecimalNumber(digits: seq<byte>): nat
    requires Digits(digits)
    decreases |digits|
  {
    var n := |digits| - 1;
    if digits == [] then 0 else DecimalNumber(digits[..n]) * 10 + (digits[n] - 48)
  }

  lemma {:induction false} DecimalGrows(digits: seq<byte>, k: nat)
    requires Digits(digits) && k <= |digits|
    ensures DecimalNumber(digits[..k]) <= DecimalNumber(digits)
    decreases |digits|
  {
    if k < |digits| {
      var n := |digits| - 1;
      assert digits[..n][..k] == digits[..k];
      DecimalGrows(digits[..n], k);
    } else {
      assert digits[..k] == digits;
    }
  }

  /** The usual way to write a number. */
  function WriteDecimal(n: nat): (digits: seq<byte>)
    ensures digits != []
  {
    if n < 10 then ["0123456789"[n] as int] else WriteDecimal(n / 10) + ["0123456789"[n % 10] as int]
  }

  /** A written number is read back, and only the ten digits are digits. */
  lemma {:induction false} DecimalReadBack(n: nat)
    ensures Digits(WriteDecimal(n)) && DecimalNumber(WriteDecimal(n)) == n
  {
    if n < 10 {
      assert WriteDecimal(n)[..0] == [];
    } else {
      DecimalReadBack(n / 10);
      assert WriteDecimal(n)[..|WriteDecimal(n)| - 1] == WriteDecimal(n / 10);
    }
  }

  lemma DigitExact(b: byte)
    ensures IsDigit(b) <==> '0' <= b as char <= '9'
  {
  }

  /** A member is a number when it is nonempty, all digits, and fits 64 bits. */
  function Decimal(value: seq<byte>, fieldIndex: nat, memberIndex: nat): Result<u64, LengthError> {
    if value == [] || !Digits(value) then Err(InvalidContentLength(fieldIndex, memberIndex))
    else if DecimalNumber(value) >= U64_LIMIT then Err(ContentLengthOverflow(fieldIndex, memberIndex))
    else Ok(DecimalNumber(value))
  }

  /** The digit loop, checked at every step. */
  method ParseDecimal(value: seq<byte>, fieldIndex: nat, memberIndex: nat) returns (r: Result<u64, LengthError>)
    ensures r == Decimal(value, fieldIndex, memberIndex)
  {
    if |value| == 0 || !Digits(value) {
      return Err(InvalidContentLength(fieldIndex, memberIndex));
    }
    var number := 0;
    for k := 0 to |value|
      invariant number == DecimalNumber(value[..k]) < U64_LIMIT
    {
      assert value[..k + 1][..k] == value[..k];
      DecimalGrows(value, k + 1);
      var next := number * 10 + (value[k] - 48);
      if number * 10 >= U64_LIMIT {
        return Err(ContentLengthOverflow(fieldIndex, memberIndex));
      }
      if next >= U64_LIMIT {
        return Err(ContentLengthOverflow(fieldIndex, memberIndex));
      }
      number := next;
    }
    assert value[..|value|] == value;
    return Ok(number);
  }

  // ---- Members ----

  function TrimStart(value: seq<byte>): seq<byte> {
    if value != [] && IsOws(value[0]) then TrimStart(value[1..]) else value
  }

  function TrimEnd(value: seq<byte>): seq<byte>
    decreases |value|
  {
    if value != [] && IsOws(value[|value| - 1]) then TrimEnd(value[..|value| - 1]) else value
  }

  function Trim(value: seq<byte>): seq<byte> { TrimEnd(TrimStart(value)) }

  /** `value` is what is left of `input` between whitespace, and neither begins nor ends in whitespace. */
  predicate Trimmed(input: seq<byte>, before: seq<byte>, value: seq<byte>, after: seq<byte>) {
    && input == before + (value + after) && AllOws(before) && AllOws(after)
    && (value != [] ==> !IsOws(value[0]) && !IsOws(value[|value| - 1]))
  }

  lemma {:induction false} TrimStartRead(value: seq<byte>) returns (before: seq<byte>)
    ensures value == before + TrimStart(value) && AllOws(before)
    ensures TrimStart(value) != [] ==> !IsOws(TrimStart(value)[0])
    decreases |value|
  {
    before := [];
    if value != [] && IsOws(value[0]) {
      var rest := TrimStartRead(value[1..]);
      before := [value[0]] + rest;
      assert value == [value[0]] + value[1..];
    }
  }

  lemma {:induction false} TrimEndRead(value: seq<byte>) returns (after: seq<byte>)
    ensures value == TrimEnd(value) + after && AllOws(after)
    ensures TrimEnd(value) != [] ==> TrimEnd(value)[0] == value[0] && !IsOws(TrimEnd(value)[|TrimEnd(value)| - 1])
    decreases |value|
  {
    after := [];
    var n := |value| - 1;
    if value != [] && IsOws(value[n]) {
      var rest := TrimEndRead(value[..n]);
      after := rest + [value[n]];
      assert value == value[..n] + [value[n]];
    }
  }

  lemma TrimRead(input: seq<byte>) returns (before: seq<byte>, after: seq<byte>)
    ensures Trimmed(input, before, Trim(input), after)
  {
    before := TrimStartRead(input);
    after := TrimEndRead(TrimStart(input));
  }

  lemma {:induction false} TrimStartWritten(before: seq<byte>, rest: seq<byte>)
    requires AllOws(before) && (rest != [] ==> !IsOws(rest[0]))
    ensures TrimStart(before + rest) == rest
    decreases |before|
  {
    if before == [] {
      assert before + rest == rest;
    } else {
      assert (before + rest)[1..] == before[1..] + rest;
      TrimStartWritten(before[1..], rest);
    }
  }

  lemma {:induction false} TrimEndWritten(value: seq<byte>, after: seq<byte>)
    requires AllOws(after) && (value != [] ==> !IsOws(value[|value| - 1]))
    ensures TrimEnd(value + after) == value
    decreases |after|
  {
    if after == [] {
      assert value + after == value;
    } else {
      var n := |after| - 1;
      assert (value + after)[..|value| + n] == value + after[..n];
      TrimEndWritten(value, after[..n]);
    }
  }

  lemma {:induction false} TrimAll(octets: seq<byte>)
    requires AllOws(octets)
    ensures TrimStart(octets) == []
    decreases |octets|
  {
    if octets != [] {
      TrimAll(octets[1..]);
    }
  }

  lemma TrimWritten(input: seq<byte>, before: seq<byte>, value: seq<byte>, after: seq<byte>)
    requires Trimmed(input, before, value, after)
    ensures Trim(input) == value
  {
    if value == [] {
      TrimAll(input);
    } else {
      TrimStartWritten(before, value + after);
      TrimEndWritten(value, after);
    }
  }

  /** Trimming leaves exactly what stands between the whitespace at both ends. */
  lemma TrimExact(input: seq<byte>, value: seq<byte>)
    ensures Trim(input) == value <==> exists before, after :: Trimmed(input, before, value, after)
  {
    if Trim(input) == value {
      var before, after := TrimRead(input);
    }
    if before, after :| Trimmed(input, before, value, after) {
      TrimWritten(input, before, value, after);
    }
  }

  method TrimOws(input: seq<byte>) returns (value: seq<byte>)
    ensures value == Trim(input)
    ensures exists before, after :: Trimmed(input, before, value, after)
  {
    TrimExact(input, Trim(input));
    value := input;
    while |value| > 0 && IsOws(value[0])
      invariant TrimStart(value) == TrimStart(input)
      decreases |value|
    {
      value := value[1..];
    }
    while |value| > 0 && IsOws(value[|value| - 1])
      invariant TrimEnd(value) == Trim(input)
      decreases |value|
    {
      value := value[..|value| - 1];
    }
  }

  /** A list value cut at its commas: never empty. */
  function Members(value: seq<byte>): (members: seq<seq<byte>>)
    ensures members != []
    decreases |value|
  {
    var comma := FirstComma(value);
    if comma == |value| then [value] else [value[..comma]] + Members(value[comma + 1..])
  }

  function FirstComma(value: seq<byte>): (comma: nat)
    ensures comma <= |value| && (comma < |value| ==> value[comma] == COMMA)
    ensures forall i :: 0 <= i < comma ==> value[i] != COMMA
  {
    if value == [] || value[0] == COMMA then 0 else 1 + FirstComma(value[1..])
  }

  /** The list value that the members make up, with commas between them. */
  function Listed(members: seq<seq<byte>>): seq<byte>
    requires members != []
  {
    if |members| == 1 then members[0] else members[0] + ([COMMA] + Listed(members[1..]))
  }

  /** Members that can be told apart: at least one, and no comma in any. */
  predicate Separable(members: seq<seq<byte>>) {
    members != [] && forall m :: m in members ==> COMMA !in m
  }

  lemma {:induction false} MembersListed(value: seq<byte>)
    ensures Separable(Members(value)) && Listed(Members(value)) == value
    decreases |value|
  {
    var comma := FirstComma(value);
    if comma < |value| {
      var first, rest := value[..comma], value[comma + 1..];
      MembersListed(rest);
      assert value == first + ([COMMA] + rest);
      assert Members(value) == [first] + Members(rest);
      assert COMMA !in first;
    }
  }

  /** A member without commas, and a comma behind it, is cut off. */
  lemma MemberCut(member: seq<byte>, rest: seq<byte>)
    requires COMMA !in member
    ensures Members(member) == [member]
    ensures Members(member + ([COMMA] + rest)) == [member] + Members(rest)
  {
    var value := member + ([COMMA] + rest);
    assert forall i :: 0 <= i < |member| ==> value[i] == member[i] && member[i] != COMMA;
    assert value[|member|] == COMMA;
    assert FirstComma(value) == |member|;
    assert value[..|member|] == member && value[|member| + 1..] == rest;
  }

  lemma {:induction false} ListedMembers(members: seq<seq<byte>>)
    requires Separable(members)
    ensures Members(Listed(members)) == members
    decreases |members|
  {
    hide Members;
    assert members[0] in members;
    if |members| == 1 {
      MemberCut(members[0], []);
    } else {
      ListedMembers(members[1..]);
      MemberCut(members[0], Listed(members[1..]));
    }
  }

  /** The members of a value are exactly those that, with commas between them, are the value. */
  lemma MembersExact(value: seq<byte>, members: seq<seq<byte>>)
    ensures Members(value) == members <==> Separable(members) && Listed(members) == value
    ensures forall m, b :: m in Members(value) && b in m ==> b as char != ','
  {
    MembersListed(value);
    if Separable(members) {
      ListedMembers(members);
    }
  }

  /** One more member: it must be a number, and the one that was declared before, if any. */
  function Agree(member: seq<byte>, fieldIndex: nat, memberIndex: nat, declared: Option<u64>): Result<Option<u64>,
                 LengthError> {
    match Decimal(Trim(member), fieldIndex, memberIndex)
    case Err(e) => Err(e)
    case Ok(actual) =>
      if declared.Some? && declared.value != actual then
        Err(ConflictingContentLength(fieldIndex, memberIndex, declared.value, actual))
      else Ok(Some(actual))
  }

  function MembersFrom(members: seq<seq<byte>>, fieldIndex: nat, memberIndex: nat,
                       declared: Option<u64>): Result<Option<u64>, LengthError>
    decreases |members| - memberIndex
  {
    if memberIndex >= |members| then Ok(declared)
    else
      match Agree(members[memberIndex], fieldIndex, memberIndex, declared)
      case Err(e) => Err(e)
      case Ok(next) => MembersFrom(members, fieldIndex, memberIndex + 1, next)
  }

  function FieldsFrom(fields: seq<Field>, fieldIndex: nat, declared: Option<u64>): Result<Option<u64>, LengthError>
    decreases |fields| - fieldIndex
  {
    if fieldIndex >= |fields| then Ok(declared)
    else if !IsContentLength(fields[fieldIndex]) then FieldsFrom(fields, fieldIndex + 1, declared)
    else
      match MembersFrom(Members(fields[fieldIndex].value), fieldIndex, 0, declared)
      case Err(e) => Err(e)
      case Ok(next) => FieldsFrom(fields, fieldIndex + 1, next)
  }

  /** The length a section declares. */
  function ContentLength(fields: seq<Field>): Result<Option<u64>, LengthError> {
    FieldsFrom(fields, 0, None)
  }

  method ParseMembers(members: seq<seq<byte>>, fieldIndex: nat, before: Option<u64>)
    returns (r: Result<Option<u64>, LengthError>)
    ensures r == MembersFrom(members, fieldIndex, 0, before)
  {
    var declared := before;
    for memberIndex := 0 to |members|
      invariant MembersFrom(members, fieldIndex, memberIndex, declared) == MembersFrom(members, fieldIndex, 0, before)
    {
      var value := TrimOws(members[memberIndex]);
      var actual := ParseDecimal(value, fieldIndex, memberIndex);
      if actual.Err? {
        return Err(actual.error);
      }
      if declared.Some? && declared.value != actual.value {
        return Err(ConflictingContentLength(fieldIndex, memberIndex, declared.value, actual.value));
      }
      declared := Some(actual.value);
    }
    return Ok(declared);
  }

  method ParseContentLength(fields: seq<Field>) returns (r: Result<Option<u64>, LengthError>)
    ensures r == ContentLength(fields)
  {
    var declared: Option<u64> := None;
    for fieldIndex := 0 to |fields|
      invariant FieldsFrom(fields, fieldIndex, declared) == ContentLength(fields)
    {
      if IsContentLength(fields[fieldIndex]) {
        var members := ParseMembers(Members(fields[fieldIndex].value), fieldIndex, declared);
        if members.Err? {
          return Err(members.error);
        }
        declared := members.value;
      }
    }
    return Ok(declared);
  }

  // ---- What is declared ----

  /** The members of every Content-Length field, in order. */
  function AllMembers(fields: seq<Field>): seq<seq<byte>> {
    if fields == [] then []
    else (if IsContentLength(fields[0]) then Members(fields[0].value) else []) + AllMembers(fields[1..])
  }

  /** A member is digits of this number between optional whitespace. */
  predicate WritesIn(member: seq<byte>, before: seq<byte>, digits: seq<byte>, after: seq<byte>, number: u64) {
    && member == before + (digits + after) && AllOws(before) && AllOws(after)
    && digits != [] && Digits(digits) && DecimalNumber(digits) == number
  }

  ghost predicate Writes(member: seq<byte>, number: u64) {
    exists before, digits, after :: WritesIn(member, before, digits, after, number)
  }

  /** A member writes a number exactly when that number is read from it. */
  lemma WritesExact(member: seq<byte>, fieldIndex: nat, memberIndex: nat, number: u64)
    ensures Writes(member, number) <==> Decimal(Trim(member), fieldIndex, memberIndex) == Ok(number)
  {
    hide DecimalNumber;
    if before, digits, after :| WritesIn(member, before, digits, after, number) {
      assert Trimmed(member, before, digits, after);
      TrimWritten(member, before, digits, after);
    }
    if Decimal(Trim(member), fieldIndex, memberIndex) == Ok(number) {
      var before, after := TrimRead(member);
      assert WritesIn(member, before, Trim(member), after, number);
    }
  }

  ghost predicate Unanimous(members: seq<seq<byte>>, declared: Option<u64>, number: u64) {
    (declared.Some? ==> declared.value == number) && forall m :: m in members ==> Writes(m, number)
  }

  lemma {:induction false} AgreementExact(members: seq<seq<byte>>, fieldIndex: nat, memberIndex: nat,
                                          declared: Option<u64>, number: u64)
    requires memberIndex <= |members|
    ensures MembersFrom(members, fieldIndex, memberIndex, declared) == Ok(None) <==>
            memberIndex == |members| && declared == None
    ensures MembersFrom(members, fieldIndex, memberIndex, declared) == Ok(Some(number)) <==>
            (declared == Some(number) || memberIndex < |members|) && Unanimous(members[memberIndex..], declared, number)
    decreases |members| - memberIndex
  {
    if memberIndex < |members| {
      var m, rest := members[memberIndex], members[memberIndex + 1..];
      assert members[memberIndex..] == [m] + rest;
      assert m in members[memberIndex..];
      WritesExact(m, fieldIndex, memberIndex, number);
      hide Writes;
      hide Trim;
      assert Unanimous(members[memberIndex..], declared, number) <==>
             (declared.Some? ==> declared.value == number) && Writes(m, number) && Unanimous(rest, None, number);
      var next := Agree(m, fieldIndex, memberIndex, declared);
      if next.Ok? {
        AgreementExact(members, fieldIndex, memberIndex + 1, next.value, number);
      }
    }
  }

  lemma {:induction false} FieldsExact(fields: seq<Field>, fieldIndex: nat, declared: Option<u64>, number: u64)
    requires fieldIndex <= |fields|
    ensures var members := AllMembers(fields[fieldIndex..]);
            && (FieldsFrom(fields, fieldIndex, declared) == Ok(None) <==> members == [] && declared == None)
            && (FieldsFrom(fields, fieldIndex, declared) == Ok(Some(number)) <==>
                (declared == Some(number) || members != []) && Unanimous(members, declared, number))
    decreases |fields| - fieldIndex
  {
    if fieldIndex < |fields| {
      var f, rest := fields[fieldIndex], AllMembers(fields[fieldIndex + 1..]);
      assert fields[fieldIndex..][1..] == fields[fieldIndex + 1..];
      if !IsContentLength(f) {
        assert AllMembers(fields[fieldIndex..]) == rest;
        FieldsExact(fields, fieldIndex + 1, declared, number);
      } else {
        var own := Members(f.value);
        assert AllMembers(fields[fieldIndex..]) == own + rest;
        var next := MembersFrom(own, fieldIndex, 0, declared);
        assert own[0..] == own;
        AgreementExact(own, fieldIndex, 0, declared, number);
        if next.Ok? {
          if next.value.Some? {
            AgreementExact(own, fieldIndex, 0, declared, next.value.value);
            assert own[0] in own;
          }
          FieldsExact(fields, fieldIndex + 1, next.value, number);
        }
      }
    }
  }

  /**
   * A section declares nothing exactly when it has no Content-Length, and declares a number exactly
   * when it has at least one member and every member writes that number.
   */
  lemma ContentLengthExact(fields: seq<Field>, number: u64)
    ensures ContentLength(fields) == Ok(None) <==> AllMembers(fields) == []
    ensures ContentLength(fields) == Ok(Some(number)) <==>
            AllMembers(fields) != [] && forall m :: m in AllMembers(fields) ==> Writes(m, number)
  {
    FieldsExact(fields, 0, None, number);
    assert fields[0..] == fields;
  }

  /** The index of the first Content-Length field. */
  function FirstContentLength(fields: seq<Field>): (r: Option<nat>)
    ensures r.None? <==> AllMembers(fields) == []
    ensures r.Some? ==> r.value < |fields| && fields[r.value].name == Ascii("content-length")
                        && forall k :: 0 <= k < r.value ==> fields[k].name != Ascii("content-length")
  {
    if fields == [] then None
    else if IsContentLength(fields[0]) then Some(0)
    else
      match FirstContentLength(fields[1..])
      case None => None
      case Some(k) => Some(k + 1)
  }

  // ---- Why a length is refused ----

  /** What is wrong with member `m` of field `f`, when `agreed` is what the members before it write. */
  ghost predicate MemberFault(member: seq<byte>, f: nat, m: nat, agreed: Option<u64>, e: LengthError) {
    match e
    case InvalidContentLength(field, index) =>
      field == f && index == m && (Trim(member) == [] || !Digits(Trim(member)))
    case ContentLengthOverflow(field, index) =>
      field == f && index == m && Digits(Trim(member)) && DecimalNumber(Trim(member)) >= U64_LIMIT
    case ConflictingContentLength(field, index, expected, actual) =>
      field == f && index == m && agreed == Some(expected) && Writes(member, actual) && expected != actual
  }

  /** The members before `m` all write what was agreed before or is agreed now. */
  ghost predicate AgreedUpTo(members: seq<seq<byte>>, m: nat, before: Option<u64>, agreed: Option<u64>)
    requires m <= |members|
  {
    && (before.Some? ==> agreed == before) && (m == 0 ==> agreed == before) && (m > 0 ==> agreed.Some?)
    && forall j :: 0 <= j < m ==> agreed.Some? && Writes(members[j], agreed.value)
  }

  lemma {:induction false} MembersRefused(members: seq<seq<byte>>, f: nat, m: nat, before: Option<u64>,
                                          agreed: Option<u64>) returns (k: nat, last: Option<u64>)
    requires m <= |members| && AgreedUpTo(members, m, before, agreed)
    requires MembersFrom(members, f, m, agreed).Err?
    ensures m <= k < |members| && AgreedUpTo(members, k, before, last)
    ensures MemberFault(members[k], f, k, last, MembersFrom(members, f, m, agreed).error)
    decreases |members| - m
  {
    hide Trim;
    hide Writes;
    hide Digits;
    k, last := m, agreed;
    match Agree(members[m], f, m, agreed) {
      case Err(e) =>
        if e.ConflictingContentLength? {
          WritesExact(members[m], f, m, e.actual);
        }
      case Ok(next) =>
        WritesExact(members[m], f, m, next.value);
        k, last := MembersRefused(members, f, m + 1, before, next);
    }
  }

  lemma {:induction false} MembersAgreed(members: seq<seq<byte>>, f: nat, m: nat, before: Option<u64>,
                                         agreed: Option<u64>)
    requires m <= |members| && AgreedUpTo(members, m, before, agreed)
    requires MembersFrom(members, f, m, agreed).Ok?
    ensures AgreedUpTo(members, |members|, before, MembersFrom(members, f, m, agreed).value)
    decreases |members| - m
  {
    hide Trim;
    hide Writes;
    hide Digits;
    if m < |members| {
      var next := Agree(members[m], f, m, agreed).value;
      WritesExact(members[m], f, m, next.value);
      MembersAgreed(members, f, m + 1, before, next);
    }
  }

  /**
   * A length is refused for the first member that is no number, is too large, or contradicts one before it:
   * every member before it, in its own field and in the fields in front, writes one and the same number.
   */
  lemma {:induction false} LengthRefused(fields: seq<Field>, start: nat, before: Option<u64>)
    returns (f: nat, m: nat, agreed: Option<u64>)
    requires start <= |fields| && FieldsFrom(fields, start, before).Err?
    ensures start <= f < |fields| && IsContentLength(fields[f]) && m < |Members(fields[f].value)|
    ensures AgreedUpTo(AllMembers(fields[start..f]) + Members(fields[f].value)[..m],
                       |AllMembers(fields[start..f])| + m, before, agreed)
    ensures MemberFault(Members(fields[f].value)[m], f, m, agreed, FieldsFrom(fields, start, before).error)
    decreases |fields| - start
  {
    hide Writes;
    hide Members;
    hide MemberFault;
    hide IsContentLength;
    var members := Members(fields[start].value);
    if !IsContentLength(fields[start]) {
      f, m, agreed := LengthRefused(fields, start + 1, before);
      assert [] + AllMembers(fields[start + 1..f]) == AllMembers(fields[start + 1..f]);
      assert fields[start..f][0] == fields[start] && fields[start..f][1..] == fields[start + 1..f];
    } else if MembersFrom(members, start, 0, before).Err? {
      m, agreed := MembersRefused(members, start, 0, before, before);
      f := start;
      assert fields[start..f] == [];
      assert AllMembers([]) + members[..m] == members[..m];
    } else {
      var next := MembersFrom(members, start, 0, before).value;
      MembersAgreed(members, start, 0, before, before);
      f, m, agreed := LengthRefused(fields, start + 1, next);
      assert fields[start..f][0] == fields[start] && fields[start..f][1..] == fields[start + 1..f];
      var rest := AllMembers(fields[start + 1..f]) + Members(fields[f].value)[..m];
      assert AllMembers(fields[start..f]) + Members(fields[f].value)[..m] == members + rest;
      forall j | 0 <= j < |members| + |rest|
        ensures agreed.Some? && Writes((members + rest)[j], agreed.value)
      {
        if j >= |members| {
          assert (members + rest)[j] == rest[j - |members|];
        }
      }
    }
  }
}
