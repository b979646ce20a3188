/** Machine integers, octets and the result types shared by every module. */
module Machine {
  const USIZE_MAX: nat := 0xFFFF_FFFF_FFFF_FFFF

  /** Rust never hands out a slice of more bytes than this. */
  const ISIZE_MAX: nat := 0x7FFF_FFFF_FFFF_FFFF

  const U64_LIMIT: nat := 0x1_0000_0000_0000_0000

  type byte = x: int | 0 <= x < 256
  type u64 = x: int | 0 <= x < U64_LIMIT
  const U32_MAX: nat := 0xFFFF_FFFF

  type u16 = x: int | 0 <= x < 0x1_0000
  type u32 = x: int | 0 <= x <= U32_MAX
  type usize = x: int | 0 <= x <= USIZE_MAX

  datatype Option<+T> = None | Some(value: T)

  datatype Result<+T, +E> = Ok(value: T) | Err(error: E)

  /** A decoded header field. */
  datatype Field = Field(name: seq<byte>, value: seq<byte>)

  /** Optional whitespace, as HTTP has it: spaces and tabs. */
  predicate IsOws(b: byte) { b == 32 || b == 9 }

  predicate AllOws(octets: seq<byte>) { forall i :: 0 <= i < |octets| ==> IsOws(octets[i]) }

  /** The octets of an ASCII text. */
  function Ascii(text: string): seq<byte>
    requires forall i :: 0 <= i < |text| ==> text[i] < 128 as char
  {
    seq(|text|, i requires 0 <= i < |text| => text[i] as int)
  }

  function Min(a: int, b: int): int { if a <= b then a else b }

  function Max(a: int, b: int): int { if a >= b then a else b }

  function Pow2(n: nat): (p: nat)
    ensures p >= 1
  {
    if n == 0 then 1 else 2 * Pow2(n - 1)
  }

  lemma {:induction false} Pow2Add(m: nat, n: nat)
    ensures Pow2(m + n) == Pow2(m) * Pow2(n)
  {
    if m > 0 {
      Pow2Add(m - 1, n);
      assert Pow2(m + n) == 2 * Pow2(m - 1 + n);
      assert 2 * (Pow2(m - 1) * Pow2(n)) == (2 * Pow2(m - 1)) * Pow2(n);
    }
  }

  lemma Pow2Of32()
    ensures Pow2(8) == 0x100 && Pow2(16) == 0x1_0000 && Pow2(32) == 0x1_0000_0000
  {
    assert Pow2(4) == 2 * Pow2(3) == 4 * Pow2(2);
    Pow2Add(4, 4);
    Pow2Add(8, 8);
    Pow2Add(16, 16);
  }

  lemma Pow2Of64()
    ensures Pow2(64) == U64_LIMIT
  {
    Pow2Of32();
    Pow2Add(32, 32);
  }

  function BigEndian16(x: u16): (octets: seq<byte>)
    ensures |octets| == 2
  {
    [x / 256, x % 256]
  }

  function BigEndian32(x: u32): (octets: seq<byte>)
    ensures |octets| == 4
  {
    BigEndian16(x / 0x1_0000) + BigEndian16(x % 0x1_0000)
  }

  /** The 32-bit integer that four octets write, most significant first. */
  function FromBigEndian32(octets: seq<byte>): u32
    requires |octets| == 4
  {
    0x100_0000 * (octets[0] as int) + 0x1_0000 * (octets[1] as int) + 0x100 * (octets[2] as int) + octets[3]
  }

  lemma BigEndian32RoundTrip(x: u32)
    ensures FromBigEndian32(BigEndian32(x)) == x
  {
  }

  lemma MulMonotone(a: int, b: int, m: int)
    requires a <= b && m >= 0
    ensures a * m <= b * m
  {
  }

  lemma ModUnique(x: int, m: int, q: int, r: int)
    requires m > 0 && 0 <= r < m && x == q * m + r
    ensures x % m == r && x / m == q
  {
    var q', r' := x / m, x % m;
    assert (q' - q) * m == r - r';
    if q' > q {
      MulMonotone(1, q' - q, m);
      assert false;
    }
    if q' < q {
      MulMonotone(q' - q, -1, m);
      assert false;
    }
  }

  /** `before` with `source` written over it at `at`. */
  function Splice<T>(before: seq<T>, at: nat, source: seq<T>): (after: seq<T>)
    requires at + |source| <= |before|
    ensures |after| == |before|
  {
    before[..at] + source + before[at + |source|..]
  }

  /** Where a splice writes, and what it leaves alone. */
  lemma SpliceReads<T>(before: seq<T>, at: nat, source: seq<T>)
    requires at + |source| <= |before|
    ensures var after := Splice(before, at, source);
            && after[at..at + |source|] == source
            && after[..at] == before[..at]
            && after[at + |source|..] == before[at + |source|..]
  {
  }

  lemma SpliceNothing<T>(before: seq<T>, at: nat)
    requires at <= |before|
    ensures Splice(before, at, []) == before
  {
  }

  lemma SliceOfTail<T>(a: seq<T>, b: seq<T>, from: nat, to: nat, end: nat)
    requires from <= to <= end <= |a| && |a| == |b| && a[from..] == b[from..]
    ensures a[to..end] == b[to..end]
  {
    forall i | to <= i < end
      ensures a[i] == b[i]
    {
      assert a[from..][i - from] == b[from..][i - from];
    }
  }

  lemma SpliceAppend<T>(before: seq<T>, at: nat, a: seq<T>, b: seq<T>)
    requires at + |a| + |b| <= |before|
    ensures Splice(Splice(before, at, a), at + |a|, b) == Splice(before, at, a + b)
  {
  }

  lemma SplicePut<T>(before: seq<T>, at: nat, done: seq<T>, octet: T)
    requires at + |done| < |before|
    ensures Splice(before, at, done)[at + |done| := octet] == Splice(before, at, done + [octet])
  {
  }

  lemma SpliceOne<T>(before: seq<T>, at: nat, octet: T)
    requires at < |before|
    ensures before[at := octet] == Splice(before, at, [octet])
  {
  }

  method Put<T>(target: array<T>, index: nat, octet: T)
    requires index < target.Length
    modifies target
    ensures target[..] == old(target[..])[index := octet]
  {
    target[index] := octet;
  }

  /** Overwrites `target[at..at + |source|]` with `source`: Rust's `copy_from_slice`. */
  method CopyFromSlice<T>(target: array<T>, at: nat, source: seq<T>)
    requires at + |source| <= target.Length
    modifies target
    ensures target[..] == Splice(old(target[..]), at, source)
  {
    forall i | 0 <= i < |source| {
      target[at + i] := source[i];
    }
  }

  /** Moves `target[from..to]` to `at`, as if through a buffer: Rust's `copy_within`. */
  method CopyWithin<T>(target: array<T>, from: nat, to: nat, at: nat)
    requires from <= to <= target.Length && at + (to - from) <= target.Length
    modifies target
    ensures target[..] == Splice(old(target[..]), at, old(target[..])[from..to])
  {
    forall i | 0 <= i < to - from {
      target[at + i] := target[from + i];
    }
  }
}
