/**
 * The trailing-zero test applied to every candidate digest (src/lib.rs).
 *
 * A digest is rendered as 64 hex digits, each byte high nibble first; the
 * test asks whether the last `count` of those digits are all zero.
 */
module ZeroTail {
  import opened Wrappers

  /** An unsigned 8-bit value. */
  type Byte = b: int | 0 <= b < 256

  /** Length of a SHA-256 digest in bytes. */
  const DigestBytes: nat := 32

  /** Length of a SHA-256 digest in hex characters. */
  const DigestChars: nat := DigestBytes * 2

  /** The all-zero digest. */
  const Zeroed: seq<Byte> :=
    [0, 0, 0, 0, 0, 0, 0, 0, 0, 0, 0, 0, 0, 0, 0, 0,
     0, 0, 0, 0, 0, 0, 0, 0, 0, 0, 0, 0, 0, 0, 0, 0]

  /** A SHA-256 digest: exactly 32 bytes. */
  type Digest = s: seq<Byte> | |s| == 32 witness Zeroed

  /** How many trailing zero hex digits are asked for; the command line admits 1..=64. */
  type ZeroCount = n: nat | 1 <= n <= 64 witness 1

  /** The two ways `is_zero_terminated` aborts. */
  datatype Panic = HashLengthMismatch | CountOutOfRange

  /** Hex digit `j` of the rendering of `hash`, counting from the most significant end. */
  function Nibble(hash: seq<Byte>, j: nat): (d: nat)
    requires j < 2 * |hash|
  {
    if j % 2 == 0 then hash[j / 2] / 16 else hash[j / 2] % 16
  }

  /** The reference definition: the last `count` hex digits of `hash` are all zero. */
  predicate ZeroNibbleTail(hash: seq<Byte>, count: nat)
  {
    forall j | 2 * |hash| - count <= j < 2 * |hash| && 0 <= j :: Nibble(hash, j) == 0
  }

  /** The last `n` bytes of `hash` are all zero. */
  predicate ZeroByteTail(hash: seq<Byte>, n: nat)
    requires n <= |hash|
  {
    forall k | |hash| - n <= k < |hash| :: hash[k] == 0
  }

  /**
   * Whether the last `count` hex digits of `hash` are zero; aborts unless the
   * hash has 32 bytes and `count` lies in 1..=64, the length check coming first.
   */
  function IsZeroTerminated(hash: seq<Byte>, count: nat): (r: Result<bool, Panic>)
    ensures r == Err(HashLengthMismatch) <==> |hash| != DigestBytes
    ensures r == Err(CountOutOfRange) <==> |hash| == DigestBytes && !(0 < count <= DigestChars)
    ensures r.Ok? ==> (r.value <==> ZeroNibbleTail(hash, count))
  {
    if |hash| != DigestBytes then Err(HashLengthMismatch)
    else if !(0 < count <= DigestChars) then Err(CountOutOfRange)
    else
      TailEqualsZeroed(hash, count / 2);
      NibbleTailByBytes(hash, count);
      Ok(CheckTail(hash, count))
  }

  /** The code's test once the arguments are checked: `count / 2` whole zero bytes, then the odd digit. */
  function CheckTail(hash: seq<Byte>, count: nat): bool
    requires |hash| == DigestBytes && 1 <= count <= DigestChars
  {
    var countBytes := count / 2;
    if hash[DigestBytes - countBytes..] == Zeroed[..countBytes] then
      !(count % 2 == 1 && hash[DigestBytes - 1 - countBytes] % 16 != 0)
    else
      false
  }

  /** Comparing the tail with a slice of the zero digest is the same as testing its bytes. */
  lemma TailEqualsZeroed(hash: seq<Byte>, n: nat)
    requires |hash| == DigestBytes && n <= DigestBytes
    ensures hash[DigestBytes - n..] == Zeroed[..n] <==> ZeroByteTail(hash, n)
  {
    if ZeroByteTail(hash, n) {
      forall i | 0 <= i < n
        ensures hash[DigestBytes - n..][i] == Zeroed[..n][i]
      {
        assert hash[DigestBytes - n + i] == 0;
      }
    } else {
      var k :| DigestBytes - n <= k < DigestBytes && hash[k] != 0;
      assert hash[DigestBytes - n..][k - (DigestBytes - n)] != Zeroed[..n][k - (DigestBytes - n)];
    }
  }

  /**
   * The byte-level reading used by the code: `count` trailing zero digits are
   * `count / 2` zero bytes and, when `count` is odd, a zero low nibble in the
   * byte just before them. Every index it touches is inside the digest.
   */
  lemma NibbleTailByBytes(hash: seq<Byte>, count: nat)
    requires |hash| == DigestBytes && 1 <= count <= DigestChars
    ensures 0 <= DigestBytes - count / 2
    ensures count % 2 == 1 ==> 0 <= DigestBytes - 1 - count / 2
    ensures ZeroNibbleTail(hash, count) <==>
      && ZeroByteTail(hash, count / 2)
      && (count % 2 == 0 || hash[DigestBytes - 1 - count / 2] % 16 == 0)
  {
    var b := count / 2;
    if ZeroNibbleTail(hash, count) {
      forall k | DigestBytes - b <= k < DigestBytes
        ensures hash[k] == 0
      {
        assert Nibble(hash, 2 * k) == 0;
        assert Nibble(hash, 2 * k + 1) == 0;
      }
      if count % 2 == 1 {
        assert Nibble(hash, 2 * (DigestBytes - 1 - b) + 1) == 0;
      }
    }
    if ZeroByteTail(hash, b) && (count % 2 == 0 || hash[DigestBytes - 1 - b] % 16 == 0) {
      forall j | 2 * DigestBytes - count <= j < 2 * DigestBytes && 0 <= j
        ensures Nibble(hash, j) == 0
      {
        if j / 2 < DigestBytes - b {
          assert j == 2 * (DigestBytes - 1 - b) + 1;
        }
      }
    }
  }

  /** Asking for fewer zero digits never turns a match into a miss. */
  lemma DownwardClosed(hash: seq<Byte>, n: nat, m: nat)
    requires IsZeroTerminated(hash, n) == Ok(true)
    requires 1 <= m <= n
    ensures IsZeroTerminated(hash, m) == Ok(true)
  {
  }

  /** The all-zero digest passes for every admissible count. */
  lemma ZeroedPassesEveryCount(n: nat)
    requires 1 <= n <= DigestChars
    ensures IsZeroTerminated(Zeroed, n) == Ok(true)
  {
    forall j | 2 * DigestBytes - n <= j < 2 * DigestBytes && 0 <= j
      ensures Nibble(Zeroed, j) == 0
    {
      ZeroedIsZero(j / 2);
    }
  }

  /** Every byte of the all-zero digest is zero. */
  lemma ZeroedIsZero(k: nat)
    requires k < DigestBytes
    ensures Zeroed[k] == 0
  {
  }

  /** Bad lengths and out-of-range counts abort instead of answering. */
  lemma PanicVectors()
    ensures IsZeroTerminated([1], 1) == Err(HashLengthMismatch)
    ensures IsZeroTerminated(Zeroed, 0) == Err(CountOutOfRange)
    ensures IsZeroTerminated(Zeroed, 65) == Err(CountOutOfRange)
  {
  }

  /** The first 29 bytes shared by the source's sample digests. */
  const SamplePrefix: seq<Byte> :=
    [1, 2, 3, 4, 5, 6, 7, 8, 9, 0, 1, 2, 3, 4, 5, 6, 7, 8, 9, 0, 1, 2, 3, 4, 5, 6, 7, 8, 9]

  /** A sample digest whose last three bytes are `a`, `b`, `c`. */
  function Sample(a: Byte, b: Byte, c: Byte): (h: seq<Byte>)
    ensures |h| == DigestBytes && h[29] == a && h[30] == b && h[31] == c
  {
    SamplePrefix + [a, b, c]
  }

  /** Last byte 21 (0x15): no count passes. */
  lemma NoTailZeroVector(n: nat)
    requires 1 <= n <= DigestChars
    ensures IsZeroTerminated(Sample(2, 3, 21), n) == Ok(false)
  {
    assert Nibble(Sample(2, 3, 21), 63) == 5;
  }

  /** Last byte 48 (0x30): only count 1 passes. */
  lemma SingleTailZeroVector(n: nat)
    requires 1 <= n <= DigestChars
    ensures IsZeroTerminated(Sample(2, 3, 48), n) == Ok(n == 1)
  {
    var h := Sample(2, 3, 48);
    assert Nibble(h, 62) == 3;
    if n == 1 {
      assert Nibble(h, 63) == 0;
    }
  }

  /** Last bytes 3, 0: counts 1 and 2 pass, nothing longer. */
  lemma EvenTailZeroesVector(n: nat)
    requires 1 <= n <= DigestChars
    ensures IsZeroTerminated(Sample(2, 3, 0), n) == Ok(n <= 2)
  {
    var h := Sample(2, 3, 0);
    assert Nibble(h, 61) == 3;
    if n <= 2 {
      assert forall j | 62 <= j < 64 :: Nibble(h, j) == 0;
    }
  }

  /** Last bytes 16, 0 (0x10, 0x00): counts 1 to 3 pass, nothing longer. */
  lemma OddTailZeroesVector(n: nat)
    requires 1 <= n <= DigestChars
    ensures IsZeroTerminated(Sample(2, 16, 0), n) == Ok(n <= 3)
  {
    var h := Sample(2, 16, 0);
    assert Nibble(h, 60) == 1;
    if n <= 3 {
      assert forall j | 61 <= j < 64 :: Nibble(h, j) == 0;
    }
  }
}
