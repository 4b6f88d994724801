/**
 * The bucket-counting helpers of jitter_random_tester/hash_tester.py:
 * `bits_subset`, `count_occurrences`, the `Occurrences` accumulator and the
 * `first_4bytes_hash` point of comparison. Python integers are unbounded, so
 * they are Dafny `int`s; a Python list is a `seq` (or an array where the code
 * fills one in place).
 */
module HashTester {
  import opened Common
  import opened JitterHashes

  /**
   * One value of `bits_subset`: `(v >> bit_offset) & mask` when the offset is
   * positive, `v & mask` otherwise, with `mask = (1 << num_bits) - 1`. With a
   * positive divisor, Dafny's `/` and `%` floor like Python's `>>` and `&`,
   * negative `v` included.
   */
  function BitField(v: int, bitOffset: int, numBits: nat): int
  {
    if bitOffset > 0 then (v / Pow2(bitOffset)) % Pow2(numBits) else v % Pow2(numBits)
  }

  /** `bits_subset(hashes, bit_offset, num_bits)`, materialised as a list. */
  function BitsSubset(hashes: seq<int>, bitOffset: int, numBits: nat): (r: seq<int>)
    ensures |r| == |hashes|
  {
    seq(|hashes|, i requires 0 <= i < |hashes| => BitField(hashes[i], bitOffset, numBits))
  }

  /** Every value `bits_subset` yields is below `2^num_bits`. */
  lemma BitsSubsetBounded(hashes: seq<int>, bitOffset: int, numBits: nat)
    ensures forall i :: 0 <= i < |hashes| ==> 0 <= BitsSubset(hashes, bitOffset, numBits)[i] < Pow2(numBits)
  {
  }

  /**
   * The field is exactly bits `bitOffset .. bitOffset + numBits - 1` of `v`:
   * putting it back above the bits below the offset gives `v` modulo
   * `2^(bitOffset + numBits)`.
   */
  lemma BitFieldSelectsBits(v: int, bitOffset: nat, numBits: nat)
    ensures BitField(v, bitOffset, numBits) * Pow2(bitOffset) + v % Pow2(bitOffset)
         == v % Pow2(bitOffset + numBits)
  {
    Pow2Add(bitOffset, numBits);
    DigitSplit(v, Pow2(bitOffset), Pow2(numBits));
    if bitOffset == 0 {
      assert v / 1 == v;
    }
  }

  /** Splitting `v` modulo `low * width` into the `width` digit above `low` and the part below it. */
  lemma DigitSplit(v: int, low: int, width: int)
    requires low > 0 && width > 0
    ensures ((v / low) % width) * low + v % low == v % (low * width)
  {
    var q := v / low;
    var f := q % width;
    var q2 := q / width;
    var r := v % low;
    assert v == q * low + r;
    assert q == q2 * width + f;
    assert q * low == q2 * (low * width) + f * low by {
      calc {
        q * low;
        (q2 * width + f) * low;
        { MulDistributes(q2 * width, f, low); }
        (q2 * width) * low + f * low;
        { MulAssociates(q2, width, low); }
        q2 * (low * width) + f * low;
      }
    }
    assert f * low + r < low * width by {
      MulMonotone(f, width - 1, low);
      MulDistributes(width, -1, low);
    }
    MulNonNegative(f, low);
    ModUnique(v, low * width, q2, f * low + r);
  }

  lemma MulDistributes(a: int, b: int, c: int)
    ensures (a + b) * c == a * c + b * c
  {
  }

  lemma MulAssociates(a: int, b: int, c: int)
    ensures (a * b) * c == a * (c * b)
  {
  }

  lemma MulMonotone(a: int, b: int, c: int)
    requires a <= b && c >= 0
    ensures a * c <= b * c
  {
  }

  lemma MulNonNegative(a: int, b: int)
    requires a >= 0 && b >= 0
    ensures a * b >= 0
  {
  }

  /** `max(hashes)` of a non-empty list. */
  function MaxOf(s: seq<int>): (m: int)
    requires |s| > 0
    ensures m in s && forall x :: x in s ==> x <= m
  {
    if |s| == 1 then s[0]
    else
      var rest := MaxOf(s[1..]);
      assert forall x :: x in s ==> x == s[0] || x in s[1..];
      if s[0] >= rest then s[0] else rest
  }

  /** The length of `[0] * n`: a negative count gives an empty list. */
  function ListLength(n: int): nat
  {
    if n < 0 then 0 else n
  }

  /**
   * The bucket count `count_occurrences` settles on: `num_buckets` unless it
   * is missing or zero, else `max(hashes) + 1`, which does not exist (Python
   * raises) for an empty input.
   */
  function NumBuckets(hashes: seq<int>, numBuckets: Option<int>): Option<int>
  {
    if numBuckets.Some? && numBuckets.value != 0 then numBuckets
    else if |hashes| == 0 then None
    else Some(MaxOf(hashes) + 1)
  }

  /** `buckets[h]` on a list of length `n` is in range: Python allows `-n <= h < n`. */
  predicate InBounds(h: int, n: nat)
  {
    0 <= h + n && h < n
  }

  /** The list position `buckets[h]` refers to. */
  function Slot(h: int, n: nat): (i: nat)
    requires InBounds(h, n)
    ensures i < n
  {
    if h < 0 then h + n else h
  }

  /**
   * The meaning of the buckets: bucket `i` counts the hashes equal to `i`,
   * plus the negative ones that Python's indexing sends there (`i - n`).
   */
  function Tally(hashes: seq<int>, n: nat): (r: seq<int>)
    ensures |r| == n
  {
    seq(n, i requires 0 <= i < n => multiset(hashes)[i] + multiset(hashes)[i - n])
  }

  /**
   * What `count_occurrences(hashes, num_buckets)` returns, or None where
   * Python raises (an empty input without a bucket count, or a hash outside
   * the list).
   */
  function BucketCounts(hashes: seq<int>, numBuckets: Option<int>): Option<seq<int>>
  {
    match NumBuckets(hashes, numBuckets)
    case None => None
    case Some(nb) =>
      if forall k :: 0 <= k < |hashes| ==> InBounds(hashes[k], ListLength(nb))
      then Some(Tally(hashes, ListLength(nb)))
      else None
  }

  /** `count_occurrences`: size the list, then one increment of `buckets[h]` per hash. */
  method CountOccurrences(hashes: seq<int>, numBuckets: Option<int>) returns (r: Option<seq<int>>)
    ensures r == BucketCounts(hashes, numBuckets)
  {
    var nb: int;
    if numBuckets.None? || numBuckets.value == 0 {
      if |hashes| == 0 {
        return None;
      }
      nb := MaxOf(hashes) + 1;
    } else {
      nb := numBuckets.value;
    }
    assert NumBuckets(hashes, numBuckets) == Some(nb);
    var buckets := new int[ListLength(nb)](_ => 0);
    var ok := AddHashes(buckets, hashes);
    r := if ok then Some(buckets[..]) else None;
  }

  /** The `for h in hashes: buckets[h] += 1` loop, which stops (Python raises) at the first hash outside the list. */
  method AddHashes(buckets: array<int>, hashes: seq<int>) returns (ok: bool)
    requires forall i :: 0 <= i < buckets.Length ==> buckets[i] == 0
    modifies buckets
    ensures ok <==> forall k :: 0 <= k < |hashes| ==> InBounds(hashes[k], buckets.Length)
    ensures ok ==> buckets[..] == Tally(hashes, buckets.Length)
  {
    var n := buckets.Length;
    assert buckets[..] == Tally([], n);
    for j := 0 to |hashes|
      invariant forall k :: 0 <= k < j ==> InBounds(hashes[k], n)
      invariant buckets[..] == Tally(hashes[..j], n)
    {
      var h := hashes[j];
      if !(-n <= h < n) {
        assert !InBounds(hashes[j], n);
        return false;
      }
      assert hashes[..j + 1] == hashes[..j] + [h];
      TallySnoc(hashes[..j], h, n);
      var slot := Slot(h, n);
      buckets[slot] := buckets[slot] + 1;
    }
    assert hashes[..|hashes|] == hashes;
    ok := true;
  }

  /** Without negative hashes, bucket `i` is simply the number of occurrences of `i`. */
  lemma CountsOfNonNegativeHashes(hashes: seq<int>, numBuckets: Option<int>)
    requires forall k :: 0 <= k < |hashes| ==> hashes[k] >= 0
    requires BucketCounts(hashes, numBuckets).Some?
    ensures forall i :: 0 <= i < |BucketCounts(hashes, numBuckets).value| ==>
      BucketCounts(hashes, numBuckets).value[i] == multiset(hashes)[i]
  {
    forall i | 0 <= i < |BucketCounts(hashes, numBuckets).value|
      ensures BucketCounts(hashes, numBuckets).value[i] == multiset(hashes)[i]
    {
      var n := |BucketCounts(hashes, numBuckets).value|;
      assert i - n !in multiset(hashes);
    }
  }

  /** Values known to be non-negative always fit when the count comes from their maximum. */
  lemma NonNegativeCountsSucceed(numbers: seq<int>)
    requires |numbers| > 0
    requires forall k :: 0 <= k < |numbers| ==> numbers[k] >= 0
    ensures BucketCounts(numbers, None).Some?
  {
    var m := MaxOf(numbers);
    forall k | 0 <= k < |numbers|
      ensures InBounds(numbers[k], ListLength(m + 1))
    {
      assert numbers[k] in numbers;
    }
  }

  function Sum(s: seq<int>): int
  {
    if s == [] then 0 else s[0] + Sum(s[1..])
  }

  /** Adding one to a single entry adds one to the sum. */
  lemma {:induction false} SumIncrement(s: seq<int>, i: nat)
    requires i < |s|
    ensures Sum(s[i := s[i] + 1]) == Sum(s) + 1
  {
    if i > 0 {
      assert s[i := s[i] + 1][1..] == s[1..][i - 1 := s[1..][i - 1] + 1];
      SumIncrement(s[1..], i - 1);
    }
  }

  /** One more hash adds one to exactly the bucket it indexes. */
  lemma TallySnoc(hashes: seq<int>, h: int, n: nat)
    requires InBounds(h, n)
    ensures Tally(hashes + [h], n) == Tally(hashes, n)[Slot(h, n) := Tally(hashes, n)[Slot(h, n)] + 1]
  {
    assert multiset(hashes + [h]) == multiset(hashes) + multiset{h};
  }

  /** Every counted hash lands in exactly one bucket: the buckets sum to the input length. */
  lemma {:induction false} BucketsSumToLength(hashes: seq<int>, n: nat)
    requires forall k :: 0 <= k < |hashes| ==> InBounds(hashes[k], n)
    ensures Sum(Tally(hashes, n)) == |hashes|
    decreases |hashes|
  {
    if hashes == [] {
      ZeroesSum(Tally(hashes, n));
    } else {
      var p := hashes[..|hashes| - 1];
      var h := hashes[|hashes| - 1];
      assert hashes == p + [h];
      BucketsSumToLength(p, n);
      TallySnoc(p, h, n);
      SumIncrement(Tally(p, n), Slot(h, n));
    }
  }

  lemma {:induction false} ZeroesSum(s: seq<int>)
    requires forall i :: 0 <= i < |s| ==> s[i] == 0
    ensures Sum(s) == 0
  {
    if s != [] {
      ZeroesSum(s[1..]);
    }
  }

  /** Entry `i` of a list, or 0 past its end (the zeros `add` extends with). */
  function At(s: seq<int>, i: nat): int
  {
    if i < |s| then s[i] else 0
  }

  /** What `Occurrences.add` leaves in `counts`: both lists zero-extended to the longer length, added entrywise. */
  function AddCounts(a: seq<int>, b: seq<int>): (r: seq<int>)
    ensures |r| == if |a| < |b| then |b| else |a|
  {
    seq(if |a| < |b| then |b| else |a|, i requires 0 <= i => At(a, i) + At(b, i))
  }

  /** Adding two count lists adds their totals. */
  lemma {:induction false} AddCountsSum(a: seq<int>, b: seq<int>)
    ensures Sum(AddCounts(a, b)) == Sum(a) + Sum(b)
    decreases |a| + |b|
  {
    var r := AddCounts(a, b);
    if r == [] {
      assert a == [] && b == [];
    } else {
      var a' := if a == [] then [] else a[1..];
      var b' := if b == [] then [] else b[1..];
      assert r[1..] == AddCounts(a', b');
      AddCountsSum(a', b');
      assert Sum(a) == At(a, 0) + Sum(a');
      assert Sum(b) == At(b, 0) + Sum(b');
    }
  }

  /** The first `Occurrences` added to a combined total is copied as it is. */
  lemma AddToNothing(b: seq<int>)
    ensures AddCounts([], b) == b
  {
  }

  /** `Occurrences`: the counts of the values in a list (the statistics over them are not modelled). */
  class Occurrences {
    var counts: seq<int>

    /** `Occurrences(numbers)`; Python raises where `count_occurrences` does. */
    constructor(numbers: seq<int>)
      requires BucketCounts(numbers, None).Some?
      ensures Some(counts) == BucketCounts(numbers, None)
    {
      var r := CountOccurrences(numbers, None);
      counts := r.value;
    }

    /** `add`: extend with zeros to the other's length, then add entrywise. */
    method Add(other: Occurrences)
      modifies this
      ensures counts == AddCounts(old(counts), old(other.counts))
    {
      var oc := other.counts;
      ghost var mine := counts;
      if |oc| > |counts| {
        counts := counts + seq(|oc| - |counts|, _ => 0);
      }
      for i := 0 to |oc|
        invariant |counts| == if |mine| < |oc| then |oc| else |mine|
        invariant forall j :: 0 <= j < |counts| ==> counts[j] == At(mine, j) + (if j < i then oc[j] else 0)
      {
        counts := counts[i := counts[i] + oc[i]];
      }
    }
  }

  /**
   * `first_4bytes_hash`: `mask32(data[0] << 24 | data[1] << 16 | data[2] << 8
   * | data[3])`. Only the low 32 bits survive the mask, so each value
   * contributes its own low 32 bits, shifted.
   */
  function First4BytesHash(data: seq<int>): (r: int)
    requires |data| >= 4
    ensures 0 <= r < TwoTo32
  {
    AsInt((Word32(data[0]) << 24) | (Word32(data[1]) << 16) | (Word32(data[2]) << 8) | Word32(data[3]))
  }

  /** On four bytes, `first_4bytes_hash` and `jitter_random_hash` agree. */
  lemma First4BytesIsJitterOnFourBytes(data: seq<int>)
    requires |data| == 4
    requires forall i :: 0 <= i < 4 ==> 0 <= data[i] < 256
    ensures First4BytesHash(data) == AsInt(JitterFold(data))
  {
    ByteWordsAgree(data[0]);
    ByteWordsAgree(data[1]);
    ByteWordsAgree(data[2]);
    ByteWordsAgree(data[3]);
    JitterFoldPacksFour(data);
  }
}
