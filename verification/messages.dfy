/**
 * The messages exchanged between the manager and its workers, and the text
 * rendering of a found hash (src/messages.rs).
 */
module Messages {
  import opened Wrappers
  import opened ZeroTail

  /** A half-open index range `[start, end)`, as Rust's `Range<u128>`; it is empty when `end <= start`. */
  datatype Range = Range(start: nat, end: nat)

  /** A digest that passed the zero-tail test, with the index whose encoding produced it. */
  datatype HashFound = HashFound(digit: nat, hash: Digest)

  /** The manager asks a worker to scan one range. */
  datatype SearchInsideRange = SearchInsideRange(range: Range)

  /** Everything a worker tells the manager: a found hash, or that it is ready, with the range it just finished if any. */
  datatype ManagerMsg = Found(found: HashFound) | WorkerReady(completed: Option<Range>)

  /** A character of the lower-case hex alphabet `0-9a-f` that the `{:02x}` format uses. */
  predicate IsLowerHex(c: char)
  {
    '0' <= c <= '9' || 'a' <= c <= 'f'
  }

  /** The character for digit value `n`; the first ten are the decimal digits. */
  function HexDigit(n: nat): (c: char)
    requires n < 16
    ensures IsLowerHex(c)
    ensures n < 10 <==> '0' <= c <= '9'
  {
    if n < 10 then ('0' as int + n) as char else ('a' as int + n - 10) as char
  }

  /** The value of a lower-case hex character, if it is one. */
  function HexValue(c: char): (v: Option<nat>)
    ensures v.Some? <==> IsLowerHex(c)
    ensures v.Some? ==> v.value < 16 && HexDigit(v.value) == c
  {
    if '0' <= c <= '9' then Some(c as nat - '0' as nat)
    else if 'a' <= c <= 'f' then Some(c as nat - 'a' as nat + 10)
    else None
  }

  /** Reading a digit back gives its value. */
  lemma HexDigitRoundTrip(n: nat)
    requires n < 16
    ensures HexValue(HexDigit(n)) == Some(n)
  {
  }

  /** One byte as `{:02x}` writes it: two characters, high nibble first, zero padded. */
  function HexByte(b: Byte): string
  {
    [HexDigit(b / 16), HexDigit(b % 16)]
  }

  /** The bytes of a hash written one after another, each as `{:02x}` writes it. */
  function HexString(bytes: seq<Byte>): (s: string)
    ensures |s| == 2 * |bytes|
  {
    if |bytes| == 0 then "" else HexByte(bytes[0]) + HexString(bytes[1..])
  }

  /** Character `j` of the rendering is hex digit `j` of the bytes: characters `2i` and `2i+1` encode byte `i`. */
  lemma {:induction false} HexStringChar(bytes: seq<Byte>, j: nat)
    requires j < 2 * |bytes|
    ensures HexString(bytes)[j] == HexDigit(Nibble(bytes, j))
    decreases |bytes|
  {
    if j >= 2 {
      HexStringChar(bytes[1..], j - 2);
      assert bytes[1..][(j - 2) / 2] == bytes[j / 2];
    }
  }

  /** Every character of the hex rendering comes from `0-9a-f`. */
  lemma HexStringAlphabet(bytes: seq<Byte>)
    ensures forall k | 0 <= k < |HexString(bytes)| :: IsLowerHex(HexString(bytes)[k])
  {
    var s := HexString(bytes);
    forall k | 0 <= k < |s|
      ensures IsLowerHex(s[k])
    {
      HexStringChar(bytes, k);
    }
  }

  /** Character `j` of the rendering is hex digit `j` of the bytes, so it is `'0'` exactly when that digit is zero. */
  lemma HexStringNibble(bytes: seq<Byte>, j: nat)
    requires j < 2 * |bytes|
    ensures HexString(bytes)[j] == HexDigit(Nibble(bytes, j))
    ensures HexString(bytes)[j] == '0' <==> Nibble(bytes, j) == 0
  {
    HexStringChar(bytes, j);
    HexDigitRoundTrip(Nibble(bytes, j));
  }

  /**
   * The zero-tail test read on the printed form: a digest passes for `count`
   * exactly when the last `count` characters of its hex rendering are `'0'`.
   */
  lemma ZeroTailOnRendering(hash: Digest, count: nat)
    requires 1 <= count <= DigestChars
    ensures IsZeroTerminated(hash, count) == Ok(true) <==> ZeroCharTail(hash, count)
  {
    var r := IsZeroTerminated(hash, count);
    assert r.Ok? && (r.value <==> ZeroNibbleTail(hash, count));
    ZeroCharsAreZeroNibbles(hash, count);
  }

  /** All of the last `count` characters of the rendering are `'0'`. */
  predicate ZeroCharTail(hash: Digest, count: nat)
  {
    forall j | DigestChars - count <= j < DigestChars && 0 <= j :: HexString(hash)[j] == '0'
  }

  /** The last `count` characters of the rendering are `'0'` exactly when the last `count` hex digits are zero. */
  lemma ZeroCharsAreZeroNibbles(hash: Digest, count: nat)
    ensures ZeroNibbleTail(hash, count) <==> ZeroCharTail(hash, count)
  {
    assert |hash| == DigestBytes;
    if ZeroNibbleTail(hash, count) {
      forall j | DigestChars - count <= j < DigestChars && 0 <= j
        ensures HexString(hash)[j] == '0'
      {
        assert Nibble(hash, j) == 0;
        HexStringNibble(hash, j);
      }
    }
    if ZeroCharTail(hash, count) {
      forall j | 2 * |hash| - count <= j < 2 * |hash| && 0 <= j
        ensures Nibble(hash, j) == 0
      {
        HexStringNibble(hash, j);
      }
    }
  }

  /** Reads an even-length lower-case hex string back into bytes, two characters per byte. */
  function ParseHex(s: string): Option<seq<Byte>>
    decreases |s|
  {
    if |s| == 0 then Some([])
    else if |s| == 1 then None
    else
      match (HexValue(s[0]), HexValue(s[1]), ParseHex(s[2..]))
      case (Some(hi), Some(lo), Some(rest)) => Some([hi * 16 + lo] + rest)
      case _ => None
  }

  /** Reading the hex rendering back yields the bytes it was made from. */
  lemma {:induction false} HexRoundTrip(bytes: seq<Byte>)
    ensures ParseHex(HexString(bytes)) == Some(bytes)
  {
    if |bytes| > 0 {
      var s := HexString(bytes);
      assert s == HexByte(bytes[0]) + HexString(bytes[1..]);
      assert s[2..] == HexString(bytes[1..]);
      HexRoundTrip(bytes[1..]);
      HexDigitRoundTrip(bytes[0] / 16);
      HexDigitRoundTrip(bytes[0] % 16);
      assert [bytes[0]] + bytes[1..] == bytes;
    }
  }

  /** Two hashes with the same rendering are the same hash. */
  lemma HexStringInjective(a: seq<Byte>, b: seq<Byte>)
    requires HexString(a) == HexString(b)
    ensures a == b
  {
    HexRoundTrip(a);
    HexRoundTrip(b);
  }

  /** The decimal digit character for value `n`. */
  function DecimalDigit(n: nat): (c: char)
    requires n < 10
    ensures '0' <= c <= '9'
  {
    ('0' as int + n) as char
  }

  /** The decimal rendering of an unsigned integer, as `{}` writes a `u128`. */
  function DecimalString(n: nat): (s: string)
    ensures 1 <= |s|
    ensures forall k | 0 <= k < |s| :: '0' <= s[k] <= '9'
    ensures s[0] == '0' ==> n == 0 && |s| == 1
    decreases n
  {
    if n < 10 then [DecimalDigit(n)] else DecimalString(n / 10) + [DecimalDigit(n % 10)]
  }

  /** The value of a decimal digit character, if it is one. */
  function DigitValue(c: char): (v: Option<nat>)
    ensures v.Some? <==> '0' <= c <= '9'
    ensures v.Some? ==> v.value < 10 && DecimalDigit(v.value) == c
  {
    if '0' <= c <= '9' then Some(c as nat - '0' as nat) else None
  }

  /** Reads a non-empty string of decimal digits. */
  function ParseDecimal(s: string): Option<nat>
    decreases |s|
  {
    if |s| == 0 then None
    else
      match DigitValue(s[|s| - 1])
      case None => None
      case Some(d) =>
        if |s| == 1 then Some(d)
        else
          match ParseDecimal(s[..|s| - 1])
          case None => None
          case Some(high) => Some(high * 10 + d)
  }

  /** Reading the decimal rendering back yields the number. */
  lemma {:induction false} DecimalRoundTrip(n: nat)
    ensures ParseDecimal(DecimalString(n)) == Some(n)
    decreases n
  {
    var s := DecimalString(n);
    if n < 10 {
      assert DigitValue(DecimalDigit(n)) == Some(n);
    } else {
      DecimalRoundTrip(n / 10);
      assert s[..|s| - 1] == DecimalString(n / 10);
      assert DigitValue(s[|s| - 1]) == Some(n % 10);
      assert ParseDecimal(s) == Some((n / 10) * 10 + n % 10);
    }
  }

  /** The line `Display` produces for a found hash: `<digit>: "<64 hex characters>"`. */
  function Render(h: HashFound): string
  {
    DecimalString(h.digit) + ": \"" + HexString(h.hash) + "\""
  }

  /** Reads a rendered line back: digits, then `: "`, then 64 hex characters, then `"`. */
  function ParseLine(line: string): Option<HashFound>
  {
    var n := |line|;
    if n < 1 + 3 + DigestChars + 1 then None
    else if line[n - 1] != '"' || line[n - 68..n - 65] != ": \"" then None
    else
      match (ParseDecimal(line[..n - 68]), ParseHex(line[n - 65..n - 1]))
      case (Some(digit), Some(hash)) =>
        if |hash| == DigestBytes then Some(HashFound(digit, hash)) else None
      case _ => None
  }

  /**
   * The shape of a rendered line: the decimal index, the separator, the 64
   * hex characters of the hash in byte order, and the closing quote.
   */
  lemma RenderLayout(h: HashFound)
    ensures var line := Render(h); var d := |DecimalString(h.digit)|;
      && |line| == d + 3 + DigestChars + 1
      && line[..d] == DecimalString(h.digit)
      && line[d..d + 3] == ": \""
      && line[d + 3..d + 3 + DigestChars] == HexString(h.hash)
      && line[|line| - 1] == '"'
  {
  }

  /** Parsing a rendered line recovers the record, so the rendering loses nothing. */
  lemma RenderRoundTrip(h: HashFound)
    ensures ParseLine(Render(h)) == Some(h)
  {
    var line := Render(h);
    var n := |line|;
    RenderLayout(h);
    var d := |DecimalString(h.digit)|;
    assert line[..n - 68] == DecimalString(h.digit);
    assert line[n - 65..n - 1] == HexString(h.hash);
    DecimalRoundTrip(h.digit);
    HexRoundTrip(h.hash);
  }

  /** Different records never print the same line. */
  lemma RenderInjective(a: HashFound, b: HashFound)
    requires Render(a) == Render(b)
    ensures a == b
  {
    RenderRoundTrip(a);
    RenderRoundTrip(b);
  }
}
