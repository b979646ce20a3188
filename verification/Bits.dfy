/** Bit strings, most significant bit first, and their packing into octets. */
module Bits {
  import opened Machine

  type BitString = seq<bool>

  function Digit(b: bool): nat { if b then 1 else 0 }

  function Value(b: BitString): nat {
    if b == [] then 0 else 2 * Value(b[..|b| - 1]) + Digit(b[|b| - 1])
  }

  /** The `n` low bits of `v`. */
  function ToBits(v: nat, n: nat): (b: BitString)
    ensures |b| == n
  {
    if n == 0 then [] else ToBits(v / 2, n - 1) + [v % 2 == 1]
  }

  function Ones(n: nat): (b: BitString)
    ensures |b| == n && forall i :: 0 <= i < n ==> b[i]
  {
    seq(n, i => true)
  }

  lemma {:induction false} ValueBound(b: BitString)
    ensures Value(b) < Pow2(|b|)
  {
    if b != [] {
      ValueBound(b[..|b| - 1]);
    }
  }

  lemma {:induction false} ValueToBits(v: nat, n: nat)
    requires v < Pow2(n)
    ensures Value(ToBits(v, n)) == v
  {
    if n > 0 {
      ValueToBits(v / 2, n - 1);
      assert ToBits(v, n)[..n - 1] == ToBits(v / 2, n - 1);
    }
  }

  lemma {:induction false} ToBitsValue(b: BitString)
    ensures ToBits(Value(b), |b|) == b
  {
    if b != [] {
      ToBitsValue(b[..|b| - 1]);
    }
  }

  /** Bit strings of one length are told apart by their values. */
  lemma ValueInjective(a: BitString, b: BitString)
    requires |a| == |b| && Value(a) == Value(b)
    ensures a == b
  {
    ToBitsValue(a);
    ToBitsValue(b);
  }

  /** `v >> k`. */
  function ShiftRight(v: nat, k: nat): nat {
    if k == 0 then v else ShiftRight(v / 2, k - 1)
  }

  /** `v << k`. */
  function ShiftLeft(v: nat, k: nat): nat {
    if k == 0 then v else 2 * ShiftLeft(v, k - 1)
  }

  /** `v & ((1 << k) - 1)`. */
  function LowBits(v: nat, k: nat): nat {
    if k == 0 then 0 else 2 * LowBits(v / 2, k - 1) + v % 2
  }

  lemma {:induction false} ShiftBound(v: nat, n: nat, k: nat)
    requires k <= n && v < Pow2(n)
    ensures ShiftRight(v, k) < Pow2(n - k)
  {
    if k > 0 {
      ShiftBound(v / 2, n - 1, k - 1);
    }
  }

  /** Dropping the last `k` bits shifts right by `k`. */
  lemma {:induction false} ToBitsPrefix(v: nat, n: nat, k: nat)
    requires k <= n
    ensures ToBits(v, n)[..n - k] == ToBits(ShiftRight(v, k), n - k)
  {
    if k > 0 {
      ToBitsPrefix(v / 2, n - 1, k - 1);
      assert ToBits(v, n)[..n - k] == ToBits(v / 2, n - 1)[..n - k];
    }
  }

  /** Shifting right compares with a prefix. */
  lemma ShiftIsPrefix(v: nat, n: nat, p: BitString)
    requires |p| <= n && v < Pow2(n)
    ensures ShiftRight(v, n - |p|) == Value(p) <==> p <= ToBits(v, n)
  {
    ShiftBound(v, n, n - |p|);
    ToBitsPrefix(v, n, n - |p|);
    PrefixIsValue(ToBits(v, n), p, ShiftRight(v, n - |p|));
  }

  lemma PrefixIsValue(w: BitString, p: BitString, q: nat)
    requires |p| <= |w| && q < Pow2(|p|) && w[..|p|] == ToBits(q, |p|)
    ensures q == Value(p) <==> p <= w
  {
    ValueToBits(q, |p|);
    ToBitsValue(p);
    assert p <= w <==> p == w[..|p|];
  }

  lemma ToBitsAt(v: nat, n: nat, k: nat)
    requires k < n
    ensures ToBits(v, n)[n - 1 - k] == (ShiftRight(v, k) % 2 == 1)
  {
    ToBitsPrefix(v, n, k);
    assert ToBits(v, n)[..n - k][n - 1 - k] == ToBits(v, n)[n - 1 - k];
  }

  /** `v << m` with `w` in the vacated bits appends `w`. */
  lemma {:induction false} ToBitsAppend(v: nat, n: nat, w: nat, m: nat)
    requires v < Pow2(n) && w < Pow2(m)
    ensures ShiftLeft(v, m) + w < Pow2(n + m)
    ensures ToBits(ShiftLeft(v, m) + w, n + m) == ToBits(v, n) + ToBits(w, m)
  {
    if m == 0 {
      assert ToBits(w, m) == [];
    } else {
      ToBitsAppend(v, n, w / 2, m - 1);
      var x := ShiftLeft(v, m) + w;
      assert x / 2 == ShiftLeft(v, m - 1) + w / 2 && x % 2 == w % 2;
      assert ToBits(x, n + m) == ToBits(x / 2, n + m - 1) + [w % 2 == 1];
    }
  }

  /** `v >> k` and the low `k` bits are the two parts of `v`. */
  lemma {:induction false} ToBitsSplit(v: nat, n: nat, k: nat)
    requires k <= n && v < Pow2(n)
    ensures ShiftRight(v, k) < Pow2(n - k) && LowBits(v, k) < Pow2(k)
    ensures ToBits(v, n) == ToBits(ShiftRight(v, k), n - k) + ToBits(LowBits(v, k), k)
  {
    if k > 0 {
      ToBitsSplit(v / 2, n - 1, k - 1);
      assert ToBits(LowBits(v, k), k) == ToBits(LowBits(v / 2, k - 1), k - 1) + [v % 2 == 1];
    }
  }

  lemma {:induction false} ValueOnes(n: nat)
    ensures Value(Ones(n)) == Pow2(n) - 1
  {
    if n > 0 {
      ValueOnes(n - 1);
      assert Ones(n)[..n - 1] == Ones(n - 1);
    }
  }

  lemma Assoc(a: BitString, b: BitString, c: BitString)
    ensures (a + b) + c == a + (b + c)
  {
  }

  // ---- Octets ----

  function OctetBits(octets: seq<byte>): (b: BitString)
    ensures |b| == 8 * |octets|
  {
    if octets == [] then [] else OctetBits(octets[..|octets| - 1]) + ToBits(octets[|octets| - 1], 8)
  }

  function Pack(b: BitString): (octets: seq<byte>)
    requires |b| % 8 == 0
    ensures 8 * |octets| == |b|
  {
    if b == [] then [] else Pack(b[..|b| - 8]) + [OctetOf(b[|b| - 8..])]
  }

  function OctetOf(b: BitString): (octet: byte)
    requires |b| == 8
    ensures octet == Value(b)
  {
    ValueBound(b);
    Pow2Of32();
    Value(b)
  }

  lemma {:induction false} OctetBitsPack(b: BitString)
    requires |b| % 8 == 0
    ensures OctetBits(Pack(b)) == b
  {
    if b != [] {
      OctetBitsPack(b[..|b| - 8]);
      ToBitsValue(b[|b| - 8..]);
    }
  }

  lemma OctetOfToBits(octet: byte)
    ensures OctetOf(ToBits(octet, 8)) == octet
  {
    Pow2Of32();
    ValueToBits(octet, 8);
  }

  lemma {:induction false} PackOctetBits(octets: seq<byte>)
    ensures Pack(OctetBits(octets)) == octets
  {
    if octets != [] {
      var n := |octets| - 1;
      PackOctetBits(octets[..n]);
      OctetOfToBits(octets[n]);
      var b := OctetBits(octets);
      assert b[..|b| - 8] == OctetBits(octets[..n]);
      assert b[|b| - 8..] == ToBits(octets[n], 8);
    }
  }

  lemma {:induction false} OctetBitsAppend(a: seq<byte>, b: seq<byte>)
    ensures OctetBits(a + b) == OctetBits(a) + OctetBits(b)
  {
    if b == [] {
      assert a + b == a;
    } else {
      assert (a + b)[..|a + b| - 1] == a + b[..|b| - 1];
      OctetBitsAppend(a, b[..|b| - 1]);
    }
  }

  /** Bit `7 - k` of octet `i`, counting from the top. */
  lemma {:induction false} OctetBitsAt(octets: seq<byte>, i: nat, k: nat)
    requires i < |octets| && k < 8
    ensures OctetBits(octets)[8 * i + (7 - k)] == (ShiftRight(octets[i], k) % 2 == 1)
  {
    var n := |octets| - 1;
    if i < n {
      OctetBitsAt(octets[..n], i, k);
    } else {
      ToBitsAt(octets[n], 8, k);
    }
  }
}
