/**
 * The RFC 7541 Appendix B code is sound: prefix-free and complete, with EOS all ones.
 * Both follow from the table being canonical, by climbing one bit at a time.
 */
module HuffmanRfc7541 {
  import opened Machine
  import opened Bits
  import opened HuffmanCode
  import T = HuffmanTable

  function First(length: nat): nat { T.IntervalOf(length).first }

  function Limit(length: nat): nat { T.Limit(length) }

  function Shorter(length: nat): nat { T.IntervalOf(length).shorter }

  lemma Climb(length: nat)
    requires length < LONGEST
    ensures First(length + 1) == 2 * Limit(length)
    ensures First(length) <= Limit(length)
  {
    T.NextLength(length);
  }

  lemma Top()
    ensures Limit(LONGEST) == Pow2(LONGEST)
  {
    Pow2Of32();
    assert Pow2(32) == 2 * Pow2(31) == 4 * Pow2(30);
  }

  // ---- Codewords of the table ----

  lemma TableEntry(s: nat)
    requires s < 257
    ensures var c := T.CODES()[s];
            && 5 <= c.length <= LONGEST
            && First(c.length) <= c.code < Limit(c.length)
            && c.code < Pow2(c.length)
  {
    T.AllPlaced(s);
    LimitBound(T.CODES()[s].length);
  }

  lemma {:induction false} LimitBound(length: nat)
    requires length <= LONGEST
    ensures Limit(length) <= Pow2(length)
    decreases LONGEST - length
  {
    if length == LONGEST {
      Top();
    } else {
      LimitBound(length + 1);
      Climb(length);
    }
  }

  lemma {:induction false} ShorterMonotone(m: nat, n: nat)
    requires m < n <= LONGEST
    ensures Limit(m) - First(m) + Shorter(m) <= Shorter(n)
  {
    T.NextLength(n - 1);
    if m < n - 1 {
      ShorterMonotone(m, n - 1);
    }
  }

  function RankOf(s: nat): int { T.Rank(T.CodeOf(s)) }

  lemma RankOfSymbol(s: nat)
    requires s < 257
    ensures 0 <= RankOf(s) < 257 && T.Ranked(RankOf(s)) == s
  {
    T.AllPlaced(s);
    T.NextLength(T.CodeOf(s).length - 1);
  }

  function RanksBelow(n: nat): set<int> { set s | 0 <= s < n :: RankOf(s) }

  lemma {:induction false} RanksBelowSize(n: nat)
    requires n <= 257
    ensures |RanksBelow(n)| == n
  {
    if n > 0 {
      RanksBelowSize(n - 1);
      forall s | 0 <= s < n - 1
        ensures RankOf(s) != RankOf(n - 1)
      {
        RankOfSymbol(s);
        RankOfSymbol(n - 1);
      }
      assert RanksBelow(n) == RanksBelow(n - 1) + {RankOf(n - 1)};
    }
  }

  function Numbers(n: nat): (r: set<int>)
    ensures forall i :: i in r <==> 0 <= i < n
    ensures |r| == n
  {
    if n == 0 then {} else Numbers(n - 1) + {n - 1}
  }

  lemma SubsetOfSameSize(a: set<int>, b: set<int>)
    requires a <= b && |a| == |b|
    ensures a == b
  {
    assert b == a + (b - a);
  }

  /** No rank is left out, because no two symbols share one. */
  lemma SymbolOfRank(rank: nat) returns (s: nat)
    requires rank < 257
    ensures s < 257 && RankOf(s) == rank
  {
    forall s | 0 <= s < 257
      ensures 0 <= RankOf(s) < 257
    {
      RankOfSymbol(s);
    }
    RanksBelowSize(257);
    SubsetOfSameSize(RanksBelow(257), Numbers(257));
    assert rank in RanksBelow(257);
    s :| 0 <= s < 257 && RankOf(s) == rank;
  }

  /** Every number in the interval of a length is the code of some symbol. */
  lemma SymbolOfCode(p: BitString) returns (s: nat)
    requires 1 <= |p| <= LONGEST && First(|p|) <= Value(p) < Limit(|p|)
    ensures s < 257 && Word(T.CODES(), s) == p
  {
    T.NextLength(|p| - 1);
    s := SymbolOfRank(Shorter(|p|) + (Value(p) - First(|p|)));
    TableEntry(s);
    var c := T.CodeOf(s);
    assert c == T.CODES()[s];
    if c.length < |p| {
      ShorterMonotone(c.length, |p|);
      assert false;
    }
    if |p| < c.length {
      ShorterMonotone(|p|, c.length);
      assert false;
    }
    ToBitsValue(p);
  }

  // ---- Prefix-free ----

  /** Cutting bits off a code leaves a number past every code of the shorter length. */
  lemma {:induction false} CutIsPastShorter(code: nat, length: nat, k: nat)
    requires 1 <= k <= length <= LONGEST && First(length) <= code
    ensures Limit(length - k) <= ShiftRight(code, k)
  {
    Climb(length - 1);
    if k > 1 {
      CutIsPastShorter(code / 2, length - 1, k - 1);
    } else {
      assert ShiftRight(code, 1) == ShiftRight(code / 2, 0);
    }
  }

  lemma SameCode(s: nat, u: nat)
    requires s < 257 && u < 257 && T.CodeOf(s) == T.CodeOf(u)
    ensures s == u
  {
    RankOfSymbol(s);
    RankOfSymbol(u);
  }

  lemma PrefixCode(c: Codeword, d: Codeword)
    requires c.length <= d.length <= LONGEST && c.code < Pow2(c.length) && d.code < Pow2(d.length)
    requires First(d.length) <= d.code && c.code < Limit(c.length)
    requires ToBits(c.code, c.length) <= ToBits(d.code, d.length)
    ensures c == d
  {
    ValueToBits(c.code, c.length);
    ShiftIsPrefix(d.code, d.length, ToBits(c.code, c.length));
    if c.length < d.length {
      CutIsPastShorter(d.code, d.length, d.length - c.length);
      assert false;
    }
  }

  lemma WordsApart(s: nat, u: nat)
    requires s < 257 && u < 257
    ensures Apart(T.CODES(), s, u)
  {
    var t := T.CODES();
    if Word(t, s) <= Word(t, u) {
      TableEntry(s);
      TableEntry(u);
      PrefixCode(t[s], t[u]);
      SameCode(s, u);
    }
  }

  // ---- Complete ----

  /** A string that no codeword starts is past every code of its length. */
  lemma {:induction false} PastOrCovered(p: BitString)
    requires |p| <= LONGEST
    ensures Limit(|p|) <= Value(p) || exists s :: 0 <= s < 257 && Word(T.CODES(), s) <= p
  {
    if p == [] {
      assert Limit(0) == 0;
    } else {
      var q := p[..|p| - 1];
      PastOrCovered(q);
      if s :| 0 <= s < 257 && Word(T.CODES(), s) <= q {
        assert Word(T.CODES(), s) <= p;
      } else {
        Climb(|q|);
        if Value(p) < Limit(|p|) {
          var s := SymbolOfCode(p);
          assert Word(T.CODES(), s) <= p;
        }
      }
    }
  }

  /** A string past every code of its length starts some codeword. */
  lemma {:induction false} PastIsPrefix(p: BitString) returns (s: nat)
    requires |p| <= LONGEST && Limit(|p|) <= Value(p)
    ensures s < 257 && p <= Word(T.CODES(), s)
    decreases LONGEST - |p|
  {
    if |p| == LONGEST {
      Top();
      ValueBound(p);
      assert false;
    } else {
      var q := p + [false];
      assert q[..|p|] == p;
      Climb(|p|);
      if Value(q) < Limit(|q|) {
        s := SymbolOfCode(q);
      } else {
        s := PastIsPrefix(q);
      }
      assert p <= q;
    }
  }

  lemma FollowsShort(p: BitString)
    requires |p| <= LONGEST
    ensures Follows(T.CODES(), p)
  {
    PastOrCovered(p);
    if Limit(|p|) <= Value(p) {
      var s := PastIsPrefix(p);
    }
  }

  lemma FollowsAny(p: BitString)
    ensures Follows(T.CODES(), p)
  {
    if |p| <= LONGEST {
      FollowsShort(p);
    } else {
      var q := p[..LONGEST];
      PastOrCovered(q);
      Top();
      ValueBound(q);
      var s :| 0 <= s < 257 && Word(T.CODES(), s) <= q;
      assert Word(T.CODES(), s) <= p;
    }
  }

  // ---- The result ----

  lemma EosIsOnes()
    ensures Word(T.CODES(), EOS) == Ones(LONGEST)
  {
    Pow2Of32();
    assert Pow2(32) == 2 * Pow2(31) == 4 * Pow2(30);
    ValueOnes(LONGEST);
    ToBitsValue(Ones(LONGEST));
    assert T.CODES()[EOS] == T.Row16(256);
  }

  /** Appendix B is a prefix-free and complete code in which EOS is thirty ones. */
  lemma CodeIsSound()
    ensures Sound(T.CODES())
  {
    forall s | 0 <= s < 257
      ensures SHORTEST <= T.CODES()[s].length <= LONGEST && T.CODES()[s].code < Pow2(T.CODES()[s].length)
    {
      TableEntry(s);
    }
    forall s, u | 0 <= s < 257 && 0 <= u < 257
      ensures Apart(T.CODES(), s, u)
    {
      WordsApart(s, u);
    }
    forall p: BitString
      ensures Follows(T.CODES(), p)
    {
      FollowsAny(p);
    }
    EosIsOnes();
  }

  // ---- The code is canonical ----

  /** No length begins inside the ranks of another. */
  lemma InsideLength(length: nat, rank: nat)
    requires 5 <= length <= LONGEST && Shorter(length) < rank < Shorter(length) + (Limit(length) - First(length))
    ensures !T.Begins(rank)
  {
  }

  lemma {:induction false} RanksAscend(length: nat, low: nat, high: nat)
    requires 5 <= length <= LONGEST
    requires Shorter(length) <= low < high < Shorter(length) + (Limit(length) - First(length)) <= 257
    ensures T.Ranked(low) < T.Ranked(high)
    decreases high - low
  {
    hide T.Ranked;
    hide T.Begins;
    InsideLength(length, high);
    T.Ascends(high - 1);
    if low < high - 1 {
      RanksAscend(length, low, high - 1);
    }
  }

  /** Codes of one length are given out in the order of the symbols: the lengths alone determine the whole table. */
  lemma Canonical(s: nat, u: nat)
    requires s < u < 257 && T.CODES()[s].length == T.CODES()[u].length
    ensures T.CODES()[s].code < T.CODES()[u].code
  {
    hide T.Ranked;
    hide T.CodeOf;
    T.AllPlaced(s);
    T.AllPlaced(u);
    var length := T.CodeOf(s).length;
    if T.CodeOf(s).code > T.CodeOf(u).code {
      RanksAscend(length, RankOf(u), RankOf(s));
    }
  }
}
