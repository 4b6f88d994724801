/**
 * The three 32-bit folds the analysis scripts compare (`jitter_random_hash`,
 * `endolith_hash`, `djb2_hash`), the masks they use, and the random input
 * generator. Python integers are unbounded; each fold masks its accumulator
 * to 32 bits after every step, so the accumulator is modelled as a `bv32`
 * whose shifts, sums and products wrap exactly as the masked Python values do.
 */
module JitterHashes {
  import opened Common

  /** `mask32`: the low 32 bits of an integer (Python's `&` on a negative value is two's complement). */
  function Mask32(v: int): (r: int)
    ensures 0 <= r < TwoTo32
    ensures 0 <= v < TwoTo32 ==> r == v
    ensures (v - r) % TwoTo32 == 0
  {
    v % TwoTo32
  }

  /** `mask8`: the low 8 bits of an integer. */
  function Mask8(v: int): (r: int)
    ensures 0 <= r < 256
    ensures 0 <= v < 256 ==> r == v
    ensures (v - r) % 256 == 0
  {
    v % 256
  }

  /** `mask8(b)` as a 32-bit word: the only place an input value becomes bits. */
  function Word8(b: int): (w: bv32)
    ensures w < 256
  {
    Mask8(b) as bv32
  }

  /** `mask32(v)` as a 32-bit word. */
  function Word32(v: int): (w: bv32)
  {
    Mask32(v) as bv32
  }

  lemma ByteWordsAgree(b: int)
    requires 0 <= b < 256
    ensures Word8(b) == Word32(b)
  {
  }

  /** The value of a 32-bit accumulator as a Python integer. */
  function AsInt(w: bv32): (r: int)
    ensures 0 <= r < TwoTo32
  {
    w as int
  }

  /** One step of `jitter_random_hash`: `mask32((accumulator << 8) ^ mask8(b))`. */
  function JitterStep(acc: bv32, b: int): bv32
  {
    (acc << 8) ^ Word8(b)
  }

  /**
   * One step of `endolith_hash`: `mask32(acc << 1) + mask32(acc >> 31)`, then
   * `^ mask8(b)`. The sum never carries, because the low bit of the shifted
   * accumulator is clear.
   */
  function EndolithStep(acc: bv32, b: int): bv32
  {
    ((acc << 1) + (acc >> 31)) ^ Word8(b)
  }

  /** One step of `djb2_hash`: `mask32((accumulator * 33) + mask8(b))`. */
  function Djb2Step(acc: bv32, b: int): bv32
  {
    acc * 33 + Word8(b)
  }

  /** The accumulator after running `step` over `data`, in order, from `acc` (the `for b in data` loop). */
  function Fold(step: (bv32, int) -> bv32, acc: bv32, data: seq<int>): bv32
    decreases |data|
  {
    if data == [] then acc else Fold(step, step(acc, data[0]), data[1..])
  }

  function JitterFold(data: seq<int>): bv32
  {
    Fold(JitterStep, 0, data)
  }

  function EndolithFold(data: seq<int>): bv32
  {
    Fold(EndolithStep, 0, data)
  }

  function Djb2Fold(data: seq<int>): bv32
  {
    Fold(Djb2Step, 0, data)
  }

  /** The four input bytes of `data`, packed big-endian into one word. */
  function PackBigEndian(d0: int, d1: int, d2: int, d3: int): bv32
  {
    (Word8(d0) << 24) | (Word8(d1) << 16) | (Word8(d2) << 8) | Word8(d3)
  }

  /** `jitter_random_hash`. */
  method JitterRandomHash(data: seq<int>) returns (hash: int)
    ensures hash == AsInt(JitterFold(data))
  {
    var accumulator: bv32 := 0;
    for i := 0 to |data|
      invariant Fold(JitterStep, accumulator, data[i..]) == JitterFold(data)
    {
      assert data[i..][1..] == data[i + 1..];
      accumulator := (accumulator << 8) ^ Word8(data[i]);
    }
    assert data[|data|..] == [];
    hash := AsInt(accumulator);
  }

  /** `endolith_hash`. */
  method EndolithHash(data: seq<int>) returns (hash: int)
    ensures hash == AsInt(EndolithFold(data))
  {
    var accumulator: bv32 := 0;
    for i := 0 to |data|
      invariant Fold(EndolithStep, accumulator, data[i..]) == EndolithFold(data)
    {
      assert data[i..][1..] == data[i + 1..];
      accumulator := (accumulator << 1) + (accumulator >> 31);
      accumulator := accumulator ^ Word8(data[i]);
    }
    assert data[|data|..] == [];
    hash := AsInt(accumulator);
  }

  /** `djb2_hash`. */
  method Djb2Hash(data: seq<int>) returns (hash: int)
    ensures hash == AsInt(Djb2Fold(data))
  {
    var accumulator: bv32 := 0;
    for i := 0 to |data|
      invariant Fold(Djb2Step, accumulator, data[i..]) == Djb2Fold(data)
    {
      assert data[i..][1..] == data[i + 1..];
      accumulator := Djb2Step(accumulator, data[i]);
    }
    assert data[|data|..] == [];
    hash := AsInt(accumulator);
  }

  /** Every value `random.getrandbits(8)` can return. */
  type Byte = x: int | 0 <= x < 256

  /**
   * `generate_random_bytes`: a list of `numBytes` zeros whose entries are then
   * replaced, in order, by successive draws; `getrandbits8(i)` is the i-th draw.
   */
  method GenerateRandomBytes(numBytes: int, getrandbits8: nat -> Byte) returns (randomBytes: seq<int>)
    ensures |randomBytes| == if numBytes < 0 then 0 else numBytes
    ensures forall i :: 0 <= i < |randomBytes| ==> randomBytes[i] == getrandbits8(i)
    ensures forall i :: 0 <= i < |randomBytes| ==> 0 <= randomBytes[i] < 256
  {
    var n := if numBytes < 0 then 0 else numBytes;
    var buffer := new int[n](_ => 0);
    for i := 0 to n
      invariant forall j :: 0 <= j < i ==> buffer[j] == getrandbits8(j)
    {
      buffer[i] := getrandbits8(i);
    }
    randomBytes := buffer[..];
  }

  /** Folding over `a + b` is folding over `a`, then over `b` from where `a` left off. */
  lemma {:induction false} FoldAppend(step: (bv32, int) -> bv32, acc: bv32, a: seq<int>, b: seq<int>)
    ensures Fold(step, acc, a + b) == Fold(step, Fold(step, acc, a), b)
    decreases |a|
  {
    if a == [] {
      assert a + b == b;
    } else {
      assert (a + b)[1..] == a[1..] + b;
      FoldAppend(step, step(acc, a[0]), a[1..], b);
    }
  }

  /** One more input is one more step. */
  lemma FoldSnoc(step: (bv32, int) -> bv32, acc: bv32, a: seq<int>, b: int)
    ensures Fold(step, acc, a + [b]) == step(Fold(step, acc, a), b)
  {
    FoldAppend(step, acc, a, [b]);
    assert [b][1..] == [];
  }

  // ---------------------------------------------------------------------------
  // What the scripts set out to show: the JitterRandom fold keeps only its last
  // four inputs, while the rotate-left fold it was derived from keeps them all.
  // ---------------------------------------------------------------------------

  /** Four shift-by-8 steps push every bit of the starting accumulator out of the word. */
  lemma FourJitterStepsForget(a1: bv32, a2: bv32, b0: int, b1: int, b2: int, b3: int)
    ensures JitterStep(JitterStep(JitterStep(JitterStep(a1, b0), b1), b2), b3)
         == JitterStep(JitterStep(JitterStep(JitterStep(a2, b0), b1), b2), b3)
  {
  }

  /** From any starting accumulator, only the last four inputs decide the JitterRandom fold. */
  lemma {:induction false} JitterFoldKeepsLastFour(acc: bv32, data: seq<int>)
    requires |data| >= 4
    ensures Fold(JitterStep, acc, data) == JitterFold(data[|data| - 4..])
    decreases |data|
  {
    var n := |data|;
    if n == 4 {
      assert data[0..] == data;
      JitterFoldOfFour(acc, data);
      JitterFoldOfFour(0, data);
      FourJitterStepsForget(acc, 0, data[0], data[1], data[2], data[3]);
    } else {
      JitterFoldKeepsLastFour(JitterStep(acc, data[0]), data[1..]);
      assert data[1..][|data[1..]| - 4..] == data[n - 4..];
    }
  }

  /** The finding of the scripts: `jitter_random_hash(data) == jitter_random_hash(data[-4:])`. */
  lemma JitterHashOfLastFour(data: seq<int>)
    requires |data| >= 4
    ensures JitterFold(data) == JitterFold(data[|data| - 4..])
  {
    JitterFoldKeepsLastFour(0, data);
  }

  /** The fold over four inputs, step by step. */
  lemma JitterFoldOfFour(acc: bv32, data: seq<int>)
    requires |data| == 4
    ensures Fold(JitterStep, acc, data)
         == JitterStep(JitterStep(JitterStep(JitterStep(acc, data[0]), data[1]), data[2]), data[3])
  {
    var a1 := JitterStep(acc, data[0]);
    var a2 := JitterStep(a1, data[1]);
    var a3 := JitterStep(a2, data[2]);
    var a4 := JitterStep(a3, data[3]);
    assert data[1..][1..][1..][1..] == [];
    calc {
      Fold(JitterStep, acc, data);
      Fold(JitterStep, a1, data[1..]);
      Fold(JitterStep, a2, data[1..][1..]);
      Fold(JitterStep, a3, data[1..][1..][1..]);
      Fold(JitterStep, a4, data[1..][1..][1..][1..]);
    }
  }

  lemma PackFourBytes(b0: int, b1: int, b2: int, b3: int)
    ensures JitterStep(JitterStep(JitterStep(JitterStep(0, b0), b1), b2), b3) == PackBigEndian(b0, b1, b2, b3)
  {
  }

  /** On four inputs the JitterRandom hash is just the four masked bytes packed big-endian. */
  lemma JitterFoldPacksFour(data: seq<int>)
    requires |data| == 4
    ensures JitterFold(data) == PackBigEndian(data[0], data[1], data[2], data[3])
  {
    JitterFoldOfFour(0, data);
    PackFourBytes(data[0], data[1], data[2], data[3]);
  }

  /** Hence the hash of any input of at least four values is its last four bytes, big-endian. */
  lemma JitterHashIsLastFourBytes(data: seq<int>)
    requires |data| >= 4
    ensures var n := |data|; JitterFold(data) == PackBigEndian(data[n - 4], data[n - 3], data[n - 2], data[n - 1])
  {
    JitterHashOfLastFour(data);
    JitterFoldPacksFour(data[|data| - 4..]);
  }

  /** The endolith step is a one-bit left rotation followed by the XOR of the byte. */
  lemma EndolithStepRotates(acc: bv32, b: int)
    ensures EndolithStep(acc, b) == acc.RotateLeft(1) ^ Word8(b)
  {
  }

  lemma EndolithStepInjective(a1: bv32, a2: bv32, b: int)
    requires EndolithStep(a1, b) == EndolithStep(a2, b)
    ensures a1 == a2
  {
  }

  /** No input ever erases the endolith accumulator: distinct starting values stay distinct. */
  lemma {:induction false} EndolithFoldInjective(a1: bv32, a2: bv32, data: seq<int>)
    requires Fold(EndolithStep, a1, data) == Fold(EndolithStep, a2, data)
    ensures a1 == a2
    decreases |data|
  {
    if data != [] {
      EndolithFoldInjective(EndolithStep(a1, data[0]), EndolithStep(a2, data[0]), data[1..]);
      EndolithStepInjective(a1, a2, data[0]);
    }
  }

  /** So the endolith hash does depend on the first input, however long the input is. */
  lemma EndolithHashUsesFirstByte(x: int, y: int, rest: seq<int>)
    requires Word8(x) != Word8(y)
    ensures EndolithFold([x] + rest) != EndolithFold([y] + rest)
  {
    var ax, ay := EndolithStep(0, x), EndolithStep(0, y);
    assert ([x] + rest)[1..] == rest && ([y] + rest)[1..] == rest;
    assert EndolithFold([x] + rest) == Fold(EndolithStep, ax, rest);
    assert EndolithFold([y] + rest) == Fold(EndolithStep, ay, rest);
    EndolithFirstStep(x, y);
    if Fold(EndolithStep, ax, rest) == Fold(EndolithStep, ay, rest) {
      EndolithFoldInjective(ax, ay, rest);
    }
  }

  lemma EndolithFirstStep(x: int, y: int)
    requires Word8(x) != Word8(y)
    ensures EndolithStep(0, x) != EndolithStep(0, y)
  {
  }

  /** Whereas the JitterRandom hash of five or more values ignores the first. */
  lemma JitterHashIgnoresFirstByte(x: int, y: int, rest: seq<int>)
    requires |rest| >= 4
    ensures JitterFold([x] + rest) == JitterFold([y] + rest)
  {
    JitterHashOfLastFour([x] + rest);
    JitterHashOfLastFour([y] + rest);
    assert ([x] + rest)[|rest| - 3..] == rest[|rest| - 4..];
    assert ([y] + rest)[|rest| - 3..] == rest[|rest| - 4..];
  }
}
