/** The integer part of `calculate_entropy` in img.py: the 256-slot byte
    frequency table built by one pass over the file's bytes, and the scan
    that keeps only the non-zero slots for the Shannon sum. The floating-point
    terms themselves (`-p * log2(p)`) are not modelled; the probabilities
    `count / len(data)` are modelled as exact reals. */
module Entropy {

  /** A byte value, as Python yields it when iterating over a `bytes` object. */
  newtype byte = x: int | 0 <= x < 256

  /** Number of byte values a histogram has slots for. */
  const SLOTS: nat := 256

  // ---------------------------------------------------------------------
  // Reference definitions
  // ---------------------------------------------------------------------

  /** How many times `v` occurs in `s`, counted from the front. */
  function Occurrences(s: seq<byte>, v: byte): (n: nat)
    ensures n <= |s|
  {
    if s == [] then 0
    else Occurrences(s[..|s| - 1], v) + (if s[|s| - 1] == v then 1 else 0)
  }

  /** The table the counting loop is meant to leave behind: slot `v` holds
      the number of occurrences of byte value `v`. */
  function Histogram(s: seq<byte>): (h: seq<nat>)
    ensures |h| == SLOTS
  {
    seq(SLOTS, v requires 0 <= v < SLOTS => Occurrences(s, v as byte))
  }

  /** Sum of a sequence of counts. */
  function Sum(s: seq<nat>): nat
  {
    if s == [] then 0 else Sum(s[..|s| - 1]) + s[|s| - 1]
  }

  /** The counts the entropy loop does not skip, in slot order. */
  function NonZeroCounts(f: seq<nat>): (c: seq<nat>)
    ensures |c| <= |f|
    ensures forall i :: 0 <= i < |c| ==> c[i] > 0
  {
    if f == [] then []
    else NonZeroCounts(f[..|f| - 1]) + (if f[|f| - 1] == 0 then [] else [f[|f| - 1]])
  }

  /** The slots that contribute to the entropy sum. */
  function NonZeroBuckets(f: seq<nat>): set<nat>
  {
    set v: nat | v < |f| && f[v] != 0
  }

  /** Sum of the per-slot ratios `count / total`. */
  function RatioSum(f: seq<nat>, total: nat): real
    requires total > 0
  {
    if f == [] then 0.0
    else RatioSum(f[..|f| - 1], total) + (f[|f| - 1] as real) / (total as real)
  }

  // ---------------------------------------------------------------------
  // The two loops of calculate_entropy
  // ---------------------------------------------------------------------

  /** The first loop: a zero-initialised 256-slot table, bumped in place
      once per byte of `data`. */
  method CountBytes(data: seq<byte>) returns (freq: seq<nat>)
    ensures |freq| == SLOTS
    ensures forall v :: 0 <= v < SLOTS ==> freq[v] == Occurrences(data, v as byte)
    ensures freq == Histogram(data)
    ensures Sum(freq) == |data|
  {
    var slots := new nat[SLOTS](_ => 0);
    for i := 0 to |data|
      invariant forall v :: 0 <= v < SLOTS ==> slots[v] == Occurrences(data[..i], v as byte)
    {
      assert data[..i + 1][..i] == data[..i];
      slots[data[i]] := slots[data[i]] + 1;
    }
    assert data[..|data|] == data;
    freq := slots[..];
    HistogramSumsToLength(data);
  }

  /** The second loop: every zero slot is skipped with `continue`; every
      other slot is one term of the entropy sum. */
  method ContributingCounts(freq: seq<nat>) returns (counts: seq<nat>)
    ensures counts == NonZeroCounts(freq)
    ensures Sum(counts) == Sum(freq)
    ensures |counts| == |NonZeroBuckets(freq)|
  {
    counts := [];
    for i := 0 to |freq|
      invariant counts == NonZeroCounts(freq[..i])
    {
      assert freq[..i + 1][..i] == freq[..i];
      if freq[i] == 0 {
        continue;
      }
      counts := counts + [freq[i]];
    }
    assert freq[..|freq|] == freq;
    NonZeroCountsSum(freq);
    NonZeroCountsMatchBuckets(freq);
  }

  /** What `calculate_entropy` feeds into its floating-point sum: nothing for
      an empty file (the function returns 0 before building a table), and
      otherwise the non-zero counts together with the total byte count. */
  datatype EntropyTerms = NoBytes | Terms(counts: seq<nat>, total: nat)

  method CollectEntropyTerms(data: seq<byte>) returns (r: EntropyTerms)
    ensures r == NoBytes <==> |data| == 0
    ensures r.Terms? ==> r.total == |data| && r.counts == NonZeroCounts(Histogram(data))
    ensures r.Terms? ==> Sum(r.counts) == r.total && RatioSum(r.counts, r.total) == 1.0
    ensures r.Terms? ==> forall i :: 0 <= i < |r.counts| ==> 0 < r.counts[i] <= r.total
  {
    if |data| == 0 {
      return NoBytes;
    }
    var freq := CountBytes(data);
    var counts := ContributingCounts(freq);
    r := Terms(counts, |data|);
    RatiosSumToOne(data);
    forall i | 0 <= i < |counts|
      ensures counts[i] <= |data|
    {
      SumBoundsElement(counts, i);
    }
  }

  // ---------------------------------------------------------------------
  // Properties of the histogram
  // ---------------------------------------------------------------------

  /** The recursive count agrees with the multiplicity in the multiset of bytes. */
  lemma {:induction false} OccurrencesIsMultiplicity(s: seq<byte>, v: byte)
    ensures Occurrences(s, v) == multiset(s)[v]
  {
    if s != [] {
      var init := s[..|s| - 1];
      OccurrencesIsMultiplicity(init, v);
      assert s == init + [s[|s| - 1]];
    }
  }

  /** Appending one byte bumps exactly its own slot. */
  lemma HistogramAppend(s: seq<byte>, x: byte)
    ensures Histogram(s + [x]) == Histogram(s)[x as int := Histogram(s)[x] + 1]
  {
  }

  /** Sum of a table after one slot is bumped. */
  lemma {:induction false} SumIncrement(s: seq<nat>, k: nat)
    requires k < |s|
    ensures Sum(s[k := s[k] + 1]) == Sum(s) + 1
  {
    var t := s[k := s[k] + 1];
    if k < |s| - 1 {
      assert t[..|t| - 1] == s[..|s| - 1][k := s[k] + 1];
      SumIncrement(s[..|s| - 1], k);
    } else {
      assert t[..|t| - 1] == s[..|s| - 1];
    }
  }

  /** The slots of the table add up to the number of bytes. */
  lemma {:induction false} HistogramSumsToLength(s: seq<byte>)
    ensures Sum(Histogram(s)) == |s|
  {
    if s == [] {
      SumOfZeros(Histogram(s));
    } else {
      var init, x := s[..|s| - 1], s[|s| - 1];
      assert s == init + [x];
      HistogramSumsToLength(init);
      HistogramAppend(init, x);
      SumIncrement(Histogram(init), x as nat);
    }
  }

  /** A table that is zero everywhere sums to zero. */
  lemma {:induction false} SumOfZeros(f: seq<nat>)
    requires forall j :: 0 <= j < |f| ==> f[j] == 0
    ensures Sum(f) == 0
  {
    if f != [] {
      SumOfZeros(f[..|f| - 1]);
    }
  }

  /** The table depends on the bytes only through their multiset: two byte
      sequences have the same table exactly when one is a permutation of the
      other. */
  lemma HistogramIffSameMultiset(a: seq<byte>, b: seq<byte>)
    ensures Histogram(a) == Histogram(b) <==> multiset(a) == multiset(b)
  {
    if multiset(a) == multiset(b) {
      forall v | 0 <= v < SLOTS
        ensures Histogram(a)[v] == Histogram(b)[v]
      {
        OccurrencesIsMultiplicity(a, v as byte);
        OccurrencesIsMultiplicity(b, v as byte);
      }
    }
    if Histogram(a) == Histogram(b) {
      forall v: byte
        ensures multiset(a)[v] == multiset(b)[v]
      {
        assert Histogram(a)[v as int] == Histogram(b)[v as int];
        OccurrencesIsMultiplicity(a, v);
        OccurrencesIsMultiplicity(b, v);
      }
    }
  }

  /** A slot is non-zero exactly when its byte value occurs in the input. */
  lemma NonZeroBucketsAreOccurringBytes(s: seq<byte>)
    ensures NonZeroBuckets(Histogram(s)) == set x | x in s :: x as nat
  {
    forall v: nat | v < SLOTS
      ensures Histogram(s)[v] != 0 <==> v as byte in s
    {
      OccurrencesIsMultiplicity(s, v as byte);
    }
    forall v | v in NonZeroBuckets(Histogram(s))
      ensures v in set x | x in s :: x as nat
    {
      assert v as byte in s;
    }
  }

  /** Every count is at most the sum. */
  lemma {:induction false} SumBoundsElement(s: seq<nat>, i: nat)
    requires i < |s|
    ensures s[i] <= Sum(s)
  {
    if i < |s| - 1 {
      SumBoundsElement(s[..|s| - 1], i);
    }
  }

  /** Skipping the zero slots does not change the total. */
  lemma {:induction false} NonZeroCountsSum(f: seq<nat>)
    ensures Sum(NonZeroCounts(f)) == Sum(f)
  {
    if f != [] {
      var init := f[..|f| - 1];
      NonZeroCountsSum(init);
      var c := NonZeroCounts(init);
      if f[|f| - 1] != 0 {
        assert (c + [f[|f| - 1]])[..|c|] == c;
      } else {
        assert c + [] == c;
      }
    }
  }

  /** One term is produced per non-zero slot. */
  lemma {:induction false} NonZeroCountsMatchBuckets(f: seq<nat>)
    ensures |NonZeroCounts(f)| == |NonZeroBuckets(f)|
  {
    if f != [] {
      var init := f[..|f| - 1];
      NonZeroCountsMatchBuckets(init);
      var k: nat := |f| - 1;
      if f[k] == 0 {
        assert NonZeroBuckets(f) == NonZeroBuckets(init);
      } else {
        assert NonZeroBuckets(f) == NonZeroBuckets(init) + {k};
        assert k !in NonZeroBuckets(init);
      }
    }
  }

  /** A table that is zero everywhere contributes no term. */
  lemma {:induction false} NonZeroCountsOfZeros(f: seq<nat>)
    requires forall j :: 0 <= j < |f| ==> f[j] == 0
    ensures NonZeroCounts(f) == []
  {
    if f != [] {
      NonZeroCountsOfZeros(f[..|f| - 1]);
    }
  }

  /** A table with a single non-zero slot contributes exactly that count. */
  lemma {:induction false} NonZeroCountsOfOneSlot(f: seq<nat>, k: nat)
    requires k < |f| && f[k] > 0
    requires forall j :: 0 <= j < |f| && j != k ==> f[j] == 0
    ensures NonZeroCounts(f) == [f[k]]
  {
    var init := f[..|f| - 1];
    if k == |f| - 1 {
      NonZeroCountsOfZeros(init);
    } else {
      NonZeroCountsOfOneSlot(init, k);
    }
  }

  /** Each byte value occurs in a run of `n` copies of `b` as often as expected. */
  lemma {:induction false} RepeatedOccurrences(b: byte, n: nat, v: byte)
    ensures Occurrences(seq(n, _ => b), v) == if v == b then n else 0
  {
    if n > 0 {
      assert seq(n, _ => b)[..n - 1] == seq(n - 1, _ => b);
      RepeatedOccurrences(b, n - 1, v);
    }
  }

  /** `n > 0` identical bytes give one non-zero slot, holding `n`. */
  lemma SingleValueHasOneBucket(b: byte, n: nat)
    requires n > 0
    ensures NonZeroBuckets(Histogram(seq(n, _ => b))) == {b as nat}
    ensures NonZeroCounts(Histogram(seq(n, _ => b))) == [n]
  {
    var h := Histogram(seq(n, _ => b));
    forall v | 0 <= v < SLOTS
      ensures h[v] == if v == b as int then n else 0
    {
      RepeatedOccurrences(b, n, v as byte);
    }
    NonZeroCountsOfOneSlot(h, b as nat);
  }

  /** Summing the ratios is dividing the summed counts. */
  lemma {:induction false} RatioSumIsScaledSum(f: seq<nat>, total: nat)
    requires total > 0
    ensures RatioSum(f, total) == (Sum(f) as real) / (total as real)
  {
    if f != [] {
      RatioSumIsScaledSum(f[..|f| - 1], total);
      DivDistributes(Sum(f[..|f| - 1]) as real, f[|f| - 1] as real, total as real);
    }
  }

  /** Division by a positive real distributes over a sum. */
  lemma DivDistributes(a: real, b: real, t: real)
    requires t > 0.0
    ensures a / t + b / t == (a + b) / t
  {
    var x, y := a / t, b / t;
    assert x * t == a && y * t == b;
    assert (x + y) * t == a + b;
  }

  /** The probabilities `count / len(data)` of the contributing slots add up to 1. */
  lemma RatiosSumToOne(s: seq<byte>)
    requires |s| > 0
    ensures RatioSum(NonZeroCounts(Histogram(s)), |s|) == 1.0
  {
    NonZeroCountsSum(Histogram(s));
    HistogramSumsToLength(s);
    RatiosOfTotalSumToOne(NonZeroCounts(Histogram(s)), |s|);
  }

  /** Counts that add up to `total` give ratios that add up to 1. */
  lemma RatiosOfTotalSumToOne(f: seq<nat>, total: nat)
    requires total > 0 && Sum(f) == total
    ensures RatioSum(f, total) == 1.0
  {
    RatioSumIsScaledSum(f, total);
    var t := total as real;
    assert t / t == 1.0;
  }
}
