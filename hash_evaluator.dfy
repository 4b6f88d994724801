/**
 * `HashEvaluator` of jitter_random_tester/hash_tester.py: the hashes of
 * every window of a byte list, and two memo tables of bucket counts, one
 * keyed by `(bit_offset, num_bits)` and one combining all offsets of a
 * `num_bits`. An `Occurrences` kept in a table is represented by its
 * `counts` (a deep copy in the second table, so value semantics fit).
 */
module HashEvaluation {
  import opened Common
  import opened JitterHashes
  import opened HashTester

  /** A slice bound as Python normalises it: negative counts from the end, then clamp to [0, len]. */
  function ClampIndex(i: int, len: nat): (r: nat)
    ensures r <= len
  {
    if i < 0 then (if i + len < 0 then 0 else i + len) else if i > len then len else i
  }

  /** Python's `s[lo:hi]`. */
  function PySlice(s: seq<int>, lo: int, hi: int): seq<int>
  {
    var a := ClampIndex(lo, |s|);
    var b := ClampIndex(hi, |s|);
    if a < b then s[a..b] else []
  }

  /** `random_bytes[i:i+bytes_per_hash]`, the input of hash `i`. */
  function Window(bytes: seq<int>, i: nat, bytesPerHash: int): seq<int>
  {
    PySlice(bytes, i, i + bytesPerHash)
  }

  /** `num_hashes = len(random_bytes) - bytes_per_hash + 1`, as the length of `[0] * num_hashes`. */
  function NumHashes(numBytes: nat, bytesPerHash: int): nat
  {
    ListLength(numBytes - bytesPerHash + 1)
  }

  /** With a positive window size, every window is a full-length run of consecutive bytes. */
  lemma WindowsAreFull(bytes: seq<int>, bytesPerHash: int, i: nat)
    requires bytesPerHash >= 1 && i < NumHashes(|bytes|, bytesPerHash)
    ensures i + bytesPerHash <= |bytes|
    ensures Window(bytes, i, bytesPerHash) == bytes[i..i + bytesPerHash]
    ensures |Window(bytes, i, bytesPerHash)| == bytesPerHash
  {
  }

  /**
   * So, with windows of at least four bytes, each JitterRandom hash the
   * evaluator computes is the last four bytes of its window, big-endian.
   */
  lemma JitterWindowHashIsLastFour(bytes: seq<int>, bytesPerHash: int, i: nat)
    requires bytesPerHash >= 4 && i < NumHashes(|bytes|, bytesPerHash)
    ensures var e := i + bytesPerHash;
      AsInt(JitterFold(Window(bytes, i, bytesPerHash)))
      == AsInt(PackBigEndian(bytes[e - 4], bytes[e - 3], bytes[e - 2], bytes[e - 1]))
  {
    WindowsAreFull(bytes, bytesPerHash, i);
    JitterHashIsLastFourBytes(Window(bytes, i, bytesPerHash));
  }

  /** The counts `eval_bit_subset(bit_offset, num_bits)` produces for non-empty `hashes`. */
  function SubsetCounts(hashes: seq<int>, bitOffset: int, numBits: nat): seq<int>
  {
    match BucketCounts(BitsSubset(hashes, bitOffset, numBits), None)
    case Some(counts) => counts
    case None => []
  }

  /** The combined counts after adding the given offsets' counts in order; the first is copied. */
  function Combined(hashes: seq<int>, offsets: seq<int>, numBits: nat): seq<int>
  {
    if offsets == [] then []
    else AddCounts(Combined(hashes, offsets[..|offsets| - 1], numBits),
                   SubsetCounts(hashes, offsets[|offsets| - 1], numBits))
  }

  /** The counts of one offset cover every hash once. */
  lemma SubsetCountsTotal(hashes: seq<int>, bitOffset: int, numBits: nat)
    requires hashes != []
    ensures Sum(SubsetCounts(hashes, bitOffset, numBits)) == |hashes|
  {
    var numbers := BitsSubset(hashes, bitOffset, numBits);
    BitsSubsetBounded(hashes, bitOffset, numBits);
    NonNegativeCountsSucceed(numbers);
    BucketsSumToLength(numbers, ListLength(MaxOf(numbers) + 1));
  }

  /** A combined table over `m` offsets counts every hash `m` times. */
  lemma {:induction false} CombinedTotal(hashes: seq<int>, offsets: seq<int>, numBits: nat)
    requires hashes != []
    ensures Sum(Combined(hashes, offsets, numBits)) == |offsets| * |hashes|
    decreases |offsets|
  {
    if offsets != [] {
      var prefix := offsets[..|offsets| - 1];
      CombinedTotal(hashes, prefix, numBits);
      AddCountsSum(Combined(hashes, prefix, numBits), SubsetCounts(hashes, offsets[|offsets| - 1], numBits));
      SubsetCountsTotal(hashes, offsets[|offsets| - 1], numBits);
      MulDistributes(|prefix|, 1, |hashes|);
    }
  }

  /** The offsets `0, 1, ..., n - 1`, in the order `range(n)` visits them. */
  function Offsets(n: nat): (r: seq<int>)
    ensures |r| == n && forall i :: 0 <= i < n ==> r[i] == i
  {
    seq(n, i requires 0 <= i < n => i)
  }

  lemma OffsetsSnoc(n: nat)
    ensures Offsets(n) + [n] == Offsets(n + 1)
  {
  }

  /** An entry of the combined table, or nothing yet. */
  function Prior<K, V>(m: map<K, seq<V>>, k: K): seq<V>
  {
    if k in m then m[k] else []
  }

  /**
   * The memo tables hold exactly what recomputing them from `hashes` gives:
   * each `(offset, bits)` entry is that bit field's counts, each `bits` entry
   * combines the counts of the offsets recorded for it, and the offsets
   * recorded are exactly the keys of the first table.
   */
  ghost predicate Tables(hashes: seq<int>, subsetTable: map<(int, nat), seq<int>>,
                         bitsTable: map<nat, seq<int>>, offsets: map<nat, seq<int>>)
  {
    (hashes == [] ==> subsetTable == map[])
    && (forall key | key in subsetTable :: subsetTable[key] == SubsetCounts(hashes, key.0, key.1))
    && offsets.Keys == bitsTable.Keys
    && (forall k | k in bitsTable :: bitsTable[k] == Combined(hashes, offsets[k], k))
    && (forall o, k :: (o, k) in subsetTable <==> k in offsets && o in offsets[k])
  }

  /** Recording a new key in both tables, as `eval_bit_subset` does, keeps them exact. */
  lemma RecordKeepsTables(hashes: seq<int>, subsetTable: map<(int, nat), seq<int>>,
                          bitsTable: map<nat, seq<int>>, offsets: map<nat, seq<int>>,
                          bitOffset: int, numBits: nat)
    requires Tables(hashes, subsetTable, bitsTable, offsets)
    requires hashes != [] && (bitOffset, numBits) !in subsetTable
    ensures var counts := SubsetCounts(hashes, bitOffset, numBits);
      Tables(hashes, subsetTable[(bitOffset, numBits) := counts],
             bitsTable[numBits := AddCounts(Prior(bitsTable, numBits), counts)],
             offsets[numBits := Prior(offsets, numBits) + [bitOffset]])
  {
    var counts := SubsetCounts(hashes, bitOffset, numBits);
    RecordKeepsSubsetTable(hashes, subsetTable, bitOffset, numBits);
    RecordKeepsBitsTable(hashes, bitsTable, offsets, bitOffset, numBits);
    RecordKeepsOffsets(subsetTable, offsets, counts, bitOffset, numBits);
    assert offsets[numBits := Prior(offsets, numBits) + [bitOffset]].Keys
        == bitsTable[numBits := AddCounts(Prior(bitsTable, numBits), counts)].Keys;
  }

  lemma RecordKeepsSubsetTable(hashes: seq<int>, subsetTable: map<(int, nat), seq<int>>, bitOffset: int, numBits: nat)
    requires forall key | key in subsetTable :: subsetTable[key] == SubsetCounts(hashes, key.0, key.1)
    ensures var table := subsetTable[(bitOffset, numBits) := SubsetCounts(hashes, bitOffset, numBits)];
      forall key | key in table :: table[key] == SubsetCounts(hashes, key.0, key.1)
  {
  }

  lemma RecordKeepsBitsTable(hashes: seq<int>, bitsTable: map<nat, seq<int>>, offsets: map<nat, seq<int>>,
                             bitOffset: int, numBits: nat)
    requires offsets.Keys == bitsTable.Keys
    requires forall k | k in bitsTable :: bitsTable[k] == Combined(hashes, offsets[k], k)
    ensures var table := bitsTable[numBits := AddCounts(Prior(bitsTable, numBits), SubsetCounts(hashes, bitOffset, numBits))];
      var offsets' := offsets[numBits := Prior(offsets, numBits) + [bitOffset]];
      forall k | k in table :: table[k] == Combined(hashes, offsets'[k], k)
  {
    var before := Prior(offsets, numBits);
    var added := before + [bitOffset];
    assert added[..|added| - 1] == before;
    assert Prior(bitsTable, numBits) == Combined(hashes, before, numBits);
  }

  lemma RecordKeepsOffsets(subsetTable: map<(int, nat), seq<int>>, offsets: map<nat, seq<int>>,
                           counts: seq<int>, bitOffset: int, numBits: nat)
    requires forall o, k :: (o, k) in subsetTable <==> k in offsets && o in offsets[k]
    ensures var table := subsetTable[(bitOffset, numBits) := counts];
      var offsets' := offsets[numBits := Prior(offsets, numBits) + [bitOffset]];
      forall o, k :: (o, k) in table <==> k in offsets' && o in offsets'[k]
  {
    var table := subsetTable[(bitOffset, numBits) := counts];
    var offsets' := offsets[numBits := Prior(offsets, numBits) + [bitOffset]];
    forall o, k
      ensures (o, k) in table <==> k in offsets' && o in offsets'[k]
    {
      if k == numBits {
        assert o in offsets'[k] <==> o == bitOffset || o in Prior(offsets, numBits);
      }
    }
  }

  /** What the updates of `Record` leave in place: old keys, and the other `num_bits` entries. */
  lemma RecordUpdates(subsetTable: map<(int, nat), seq<int>>, bitsTable: map<nat, seq<int>>,
                      offsets: map<nat, seq<int>>, counts: seq<int>, bitOffset: int, numBits: nat)
    ensures forall key :: key in subsetTable ==> key in subsetTable[(bitOffset, numBits) := counts]
    ensures var bitsTable' := bitsTable[numBits := AddCounts(Prior(bitsTable, numBits), counts)];
      forall k :: k != numBits ==> Prior(bitsTable', k) == Prior(bitsTable, k)
    ensures Prior(offsets[numBits := Prior(offsets, numBits) + [bitOffset]], numBits)
         == Prior(offsets, numBits) + [bitOffset]
  {
  }

  class HashEvaluator {
    const hashFunc: seq<int> --> int
    const name: string
    var hashes: seq<int>
    /** `bit_subset_counts`, keyed by `(bit_offset, num_bits)`. */
    var bitSubsetCounts: map<(int, nat), seq<int>>
    /** `num_bits_counts`, keyed by `num_bits`. */
    var numBitsCounts: map<nat, seq<int>>
    /** For each `num_bits`, the offsets whose counts went into `numBitsCounts`, in order. */
    ghost var offsetsAdded: map<nat, seq<int>>

    ghost predicate Valid()
      reads this
    {
      Tables(hashes, bitSubsetCounts, numBitsCounts, offsetsAdded)
    }

    /** `HashEvaluator(hash_func, name, random_bytes, bytes_per_hash)`: hash every window. */
    constructor(hashFunc: seq<int> --> int, name: string, randomBytes: seq<int>, bytesPerHash: int)
      requires forall i :: 0 <= i < NumHashes(|randomBytes|, bytesPerHash) ==>
        hashFunc.requires(Window(randomBytes, i, bytesPerHash))
      ensures Valid() && this.hashFunc == hashFunc && this.name == name
      ensures |hashes| == NumHashes(|randomBytes|, bytesPerHash)
      ensures forall i :: 0 <= i < |hashes| ==> hashes[i] == hashFunc(Window(randomBytes, i, bytesPerHash))
      ensures bitSubsetCounts == map[] && numBitsCounts == map[]
    {
      this.hashFunc := hashFunc;
      this.name := name;
      var numHashes := |randomBytes| - bytesPerHash + 1;
      var table := new int[ListLength(numHashes)](_ => 0);
      for i := 0 to table.Length
        invariant forall j :: 0 <= j < i ==> table[j] == hashFunc(Window(randomBytes, j, bytesPerHash))
      {
        table[i] := hashFunc(Window(randomBytes, i, bytesPerHash));
      }
      hashes := table[..];
      bitSubsetCounts := map[];
      numBitsCounts := map[];
      offsetsAdded := map[];
    }

    /**
     * `eval_bit_subset`: the cached counts if this key was seen before;
     * otherwise count the bit field, remember it, and add it into the
     * table for `num_bits`. None where Python raises (no hashes to count).
     */
    method EvalBitSubset(bitOffset: int, numBits: nat) returns (r: Option<seq<int>>)
      requires Valid()
      modifies this
      ensures Valid() && hashes == old(hashes)
      ensures r == if hashes == [] then None else Some(SubsetCounts(hashes, bitOffset, numBits))
      ensures (bitOffset, numBits) in old(bitSubsetCounts) || r.None? ==>
        bitSubsetCounts == old(bitSubsetCounts) && numBitsCounts == old(numBitsCounts)
        && offsetsAdded == old(offsetsAdded)
      ensures (bitOffset, numBits) !in old(bitSubsetCounts) && r.Some? ==>
        bitSubsetCounts == old(bitSubsetCounts)[(bitOffset, numBits) := r.value]
        && numBitsCounts == old(numBitsCounts)[numBits := AddCounts(Prior(old(numBitsCounts), numBits), r.value)]
        && offsetsAdded == old(offsetsAdded)[numBits := Prior(old(offsetsAdded), numBits) + [bitOffset]]
      ensures r.Some? ==> (bitOffset, numBits) in bitSubsetCounts
      ensures forall key :: key in old(bitSubsetCounts) ==> key in bitSubsetCounts
      ensures forall k :: k != numBits ==> Prior(numBitsCounts, k) == Prior(old(numBitsCounts), k)
      ensures Prior(offsetsAdded, numBits) ==
        if (bitOffset, numBits) !in old(bitSubsetCounts) && r.Some?
        then Prior(old(offsetsAdded), numBits) + [bitOffset] else Prior(old(offsetsAdded), numBits)
    {
      var key := (bitOffset, numBits);
      if key in bitSubsetCounts {
        return Some(bitSubsetCounts[key]);
      }
      var numbers := BitsSubset(hashes, bitOffset, numBits);
      if |numbers| == 0 {
        return None;
      }
      BitsSubsetBounded(hashes, bitOffset, numBits);
      NonNegativeCountsSucceed(numbers);
      var occurrences := new Occurrences(numbers);
      Record(bitOffset, numBits, occurrences.counts);
      r := Some(occurrences.counts);
    }

    /** Store new counts under `(bit_offset, num_bits)` and add them into the table for `num_bits`. */
    method Record(bitOffset: int, numBits: nat, counts: seq<int>)
      requires Valid() && hashes != [] && (bitOffset, numBits) !in bitSubsetCounts
      requires counts == SubsetCounts(hashes, bitOffset, numBits)
      modifies this
      ensures Valid() && hashes == old(hashes)
      ensures bitSubsetCounts == old(bitSubsetCounts)[(bitOffset, numBits) := counts]
      ensures numBitsCounts == old(numBitsCounts)[numBits := AddCounts(Prior(old(numBitsCounts), numBits), counts)]
      ensures offsetsAdded == old(offsetsAdded)[numBits := Prior(old(offsetsAdded), numBits) + [bitOffset]]
      ensures forall key :: key in old(bitSubsetCounts) ==> key in bitSubsetCounts
      ensures forall k :: k != numBits ==> Prior(numBitsCounts, k) == Prior(old(numBitsCounts), k)
      ensures Prior(offsetsAdded, numBits) == Prior(old(offsetsAdded), numBits) + [bitOffset]
    {
      RecordKeepsTables(hashes, bitSubsetCounts, numBitsCounts, offsetsAdded, bitOffset, numBits);
      RecordUpdates(bitSubsetCounts, numBitsCounts, offsetsAdded, counts, bitOffset, numBits);
      bitSubsetCounts := bitSubsetCounts[(bitOffset, numBits) := counts];
      if numBits !in numBitsCounts {
        AddToNothing(counts);
        numBitsCounts := numBitsCounts[numBits := counts];
      } else {
        numBitsCounts := numBitsCounts[numBits := AddCounts(numBitsCounts[numBits], counts)];
      }
      offsetsAdded := offsetsAdded[numBits := Prior(offsetsAdded, numBits) + [bitOffset]];
    }

    /**
     * `occurrences_for_num_bits`: evaluate the offsets `0 .. 32 - num_bits`,
     * then return the combined table for `num_bits` (None where Python raises:
     * no hashes, or no table for `num_bits`).
     */
    method OccurrencesForNumBits(numBits: nat) returns (r: Option<seq<int>>)
      requires Valid()
      modifies this
      ensures Valid() && hashes == old(hashes)
      ensures r.Some? ==> numBits in numBitsCounts && r.value == numBitsCounts[numBits]
      ensures numBits <= 32 ==> (r.Some? <==> hashes != [])
      ensures r.Some? ==> forall o :: 0 <= o < 33 - numBits ==> (o, numBits) in bitSubsetCounts
      ensures r.Some? && numBits <= 32 && numBits !in old(offsetsAdded) ==>
        offsetsAdded[numBits] == Offsets(33 - numBits)
      ensures forall k :: k != numBits ==> Prior(numBitsCounts, k) == Prior(old(numBitsCounts), k)
    {
      var count := ListLength(33 - numBits);
      for o := 0 to count
        invariant Valid() && hashes == old(hashes)
        invariant forall p :: 0 <= p < o ==> (p, numBits) in bitSubsetCounts
        invariant numBits !in old(offsetsAdded) ==>
          Prior(offsetsAdded, numBits) == Offsets(o) && (o > 0 ==> numBits in offsetsAdded)
        invariant forall k :: k != numBits ==> Prior(numBitsCounts, k) == Prior(old(numBitsCounts), k)
      {
        ghost var before := Prior(offsetsAdded, numBits);
        ghost var table := bitSubsetCounts;
        var counts := EvalBitSubset(o, numBits);
        if counts.None? {
          return None;
        }
        forall p | 0 <= p < o + 1
          ensures (p, numBits) in bitSubsetCounts
        {
          if p < o {
            assert (p, numBits) in table;
          }
        }
        if numBits !in old(offsetsAdded) {
          assert o !in before;
          OffsetsSnoc(o);
        }
      }
      if count > 0 {
        assert (0, numBits) in bitSubsetCounts;
        assert numBits in offsetsAdded;
      }
      if numBits !in numBitsCounts {
        return None;
      }
      r := Some(numBitsCounts[numBits]);
    }
  }
}
