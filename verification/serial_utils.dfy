/**
 * SerialUtils: hex byte tokens expanded into bits, most significant bit first, and booleans
 * folded back into a Java `int`.
 */
module SerialUtils {
  import opened Wrappers
  import opened JavaText

  /** Bit i of n, counting from the least significant bit 0. */
  function Bit(n: nat, i: nat): bool {
    if i == 0 then n % 2 == 1 else Bit(n / 2, i - 1)
  }

  /** The k low bits of n, most significant first. */
  function Bits(n: nat, k: nat): (r: seq<bool>)
    ensures |r| == k
  {
    if k == 0 then [] else Bits(n / 2, k - 1) + [n % 2 == 1]
  }

  /** The eight bits of a byte, most significant first. */
  function ByteBits(v: nat): (r: seq<bool>)
    ensures |r| == 8
  {
    Bits(v, 8)
  }

  /** The big-endian binary value of a sequence of booleans. */
  function BigEndian(bs: seq<bool>): nat {
    if |bs| == 0 then 0 else 2 * BigEndian(bs[..|bs| - 1]) + (if bs[|bs| - 1] then 1 else 0)
  }

  /** Element j of Bits(n, k) is bit k-1-j of n. */
  lemma {:induction false} BitsAt(n: nat, k: nat, j: nat)
    requires j < k
    ensures Bits(n, k)[j] == Bit(n, k - 1 - j)
  {
    if j < k - 1 {
      BitsAt(n / 2, k - 1, j);
    }
  }

  /** Folding the k low bits of n back gives n when n < 2^k. */
  lemma {:induction false} BigEndianBits(n: nat, k: nat)
    requires n < Pow2(k)
    ensures BigEndian(Bits(n, k)) == n
  {
    if k > 0 {
      BigEndianBits(n / 2, k - 1);
      assert Bits(n, k)[..k - 1] == Bits(n / 2, k - 1);
    }
  }

  lemma MulAtLeast(d: int, k: int)
    requires d > 0 && k >= 1
    ensures d * k >= d
  {
  }

  /** Euclidean division is determined by its quotient and remainder. */
  lemma DivModUnique(n: int, d: int, x: int, y: int)
    requires d > 0 && n == d * x + y && 0 <= y < d
    ensures n / d == x && n % d == y
  {
    var q, r := n / d, n % d;
    assert n == d * q + r;
    assert d * x - d * q == d * (x - q);
    if x > q {
      MulAtLeast(d, x - q);
    } else if x < q {
      MulAtLeast(d, q - x);
    }
  }

  lemma DivMod2(n: nat, q: nat)
    requires q > 0
    ensures (n % (2 * q)) / 2 == (n / 2) % q
    ensures (n % (2 * q)) % 2 == n % 2
    ensures (n / 2) / q == n / (2 * q)
  {
    var a := n / (2 * q);
    var r := n % (2 * q);
    assert n == (2 * q) * a + r;
    var h := r / 2;
    assert r == 2 * h + r % 2;
    assert n == 2 * (q * a + h) + r % 2;
    DivModUnique(n, 2, q * a + h, r % 2);
    DivModUnique(n / 2, q, a, h);
    DivModUnique(r, 2, h, r % 2);
  }

  /** The k low bits of n fold to n modulo 2^k. */
  lemma {:induction false} BigEndianBitsMod(n: nat, k: nat)
    ensures BigEndian(Bits(n, k)) == n % Pow2(k)
  {
    if k > 0 {
      BigEndianBitsMod(n / 2, k - 1);
      assert Bits(n, k)[..k - 1] == Bits(n / 2, k - 1);
      DivMod2(n, Pow2(k - 1));
    }
  }

  /** n shifted right by m bits. */
  function Shr(n: nat, m: nat): nat {
    if m == 0 then n else Shr(n / 2, m - 1)
  }

  /** Shifting right by m bits divides by 2^m. */
  lemma {:induction false} ShrDiv(n: nat, m: nat)
    ensures Shr(n, m) == n / Pow2(m)
  {
    if m > 0 {
      ShrDiv(n / 2, m - 1);
      DivMod2(n, Pow2(m - 1));
    }
  }

  /** The k + m low bits of n are the k bits above the lowest m, then the lowest m. */
  lemma {:induction false} BitsSplit(n: nat, k: nat, m: nat)
    ensures Bits(n, k + m) == Bits(Shr(n, m), k) + Bits(n, m)
    decreases m
  {
    if m > 0 {
      BitsSplit(n / 2, k, m - 1);
      assert Bits(n, k + m) == Bits(n / 2, k + (m - 1)) + [n % 2 == 1];
    }
  }

  /** Two sequences of the same length with the same value are equal. */
  lemma {:induction false} BigEndianInjective(xs: seq<bool>, ys: seq<bool>)
    requires |xs| == |ys| && BigEndian(xs) == BigEndian(ys)
    ensures xs == ys
  {
    if |xs| > 0 {
      var n := |xs|;
      BigEndianInjective(xs[..n - 1], ys[..n - 1]);
      assert xs == xs[..n - 1] + [xs[n - 1]];
      assert ys == ys[..n - 1] + [ys[n - 1]];
    }
  }

  /** n booleans fold to a value below 2^n. */
  lemma {:induction false} BigEndianBound(bs: seq<bool>)
    ensures BigEndian(bs) < Pow2(|bs|)
  {
    if |bs| > 0 {
      BigEndianBound(bs[..|bs| - 1]);
    }
  }

  /** A leading boolean adds its weight 2^(length of the rest). */
  lemma {:induction false} BigEndianCons(b: bool, bs: seq<bool>)
    ensures BigEndian([b] + bs) == (if b then Pow2(|bs|) else 0) + BigEndian(bs)
    decreases |bs|
  {
    if |bs| > 0 {
      var s := [b] + bs;
      assert s[..|s| - 1] == [b] + bs[..|bs| - 1];
      BigEndianCons(b, bs[..|bs| - 1]);
    } else {
      assert [b] + bs == [b];
      assert ([b] + bs)[..0] == [];
    }
  }

  lemma Pow2Of31()
    ensures Pow2(31) == 0x8000_0000
  {
    assert Pow2(4) == 16;
    assert Pow2(8) == 256;
    assert Pow2(12) == 4096;
    assert Pow2(16) == 65536;
    assert Pow2(20) == 1048576;
    assert Pow2(24) == 16777216;
    assert Pow2(28) == 268435456;
  }

  lemma {:induction false} Pow2Monotone(a: nat, b: nat)
    requires a <= b
    ensures Pow2(a) <= Pow2(b)
    decreases b
  {
    if a < b {
      Pow2Monotone(a, b - 1);
    }
  }

  // ---------------------------------------------------------------- convertHexToBooleanArray

  /** The value of a byte token. */
  function TokenValue(t: string): (v: nat)
    requires IsByteToken(t)
    ensures v < 256
  {
    ParseHexInt(t).value
  }

  predicate AllByteTokens(line: seq<string>) {
    forall i :: 0 <= i < |line| ==> IsByteToken(line[i])
  }

  /** The bits of a line of byte tokens: each byte MSB first, bytes in line order. */
  function HexBits(line: seq<string>): (r: seq<bool>)
    requires AllByteTokens(line)
    ensures |r| == 8 * |line|
  {
    if |line| == 0 then []
    else HexBits(line[..|line| - 1]) + ByteBits(TokenValue(line[|line| - 1]))
  }

  /** The digits `leftPad(Integer.toBinaryString(v), 8, '0')` that the conversion writes for a token. */
  function PaddedBinary(v: int): (s: string)
    requires MinInt <= v <= MaxInt
    ensures |s| >= 8
  {
    LeftPad(BinaryString(v), 8, '0')
  }

  /** Bit 0 of n is its last binary digit, and so on leftwards. */
  lemma {:induction false} BinaryAt(n: nat, i: nat)
    requires i < |Binary(n)|
    ensures Binary(n)[|Binary(n)| - 1 - i] == if Bit(n, i) then '1' else '0'
    decreases n
  {
    if n >= 2 && i > 0 {
      BinaryAt(n / 2, i - 1);
    }
  }

  lemma {:induction false} BitOfZero(i: nat)
    ensures !Bit(0, i)
  {
    if i > 0 {
      BitOfZero(i - 1);
    }
  }

  /** No bit is set at or beyond the length of the binary digits. */
  lemma {:induction false} BitBeyond(n: nat, i: nat)
    requires i >= |Binary(n)|
    ensures !Bit(n, i)
    decreases n
  {
    if n < 2 {
      BitOfZero(i - 1);
    } else {
      BitBeyond(n / 2, i - 1);
    }
  }

  /** A value below 2^k has at most k binary digits. */
  lemma {:induction false} BinaryShort(n: nat, k: nat)
    requires 1 <= k && n < Pow2(k)
    ensures |Binary(n)| <= k
    decreases k
  {
    if n >= 2 {
      BinaryShort(n / 2, k - 1);
    }
  }

  /** Digit j of the binary digits of n padded to 8 is '1' exactly where bit 7 - j is set. */
  lemma PaddedDigit(n: nat, j: nat)
    requires |Binary(n)| <= 8 && j < 8
    ensures LeftPad(Binary(n), 8, '0')[j] == if Bit(n, 7 - j) then '1' else '0'
  {
    var b := Binary(n);
    var p := LeftPad(b, 8, '0');
    if j >= 8 - |b| {
      BinaryAt(n, 7 - j);
      assert p[j] == p[8 - |b|..][j - (8 - |b|)];
    } else {
      BitBeyond(n, 7 - j);
    }
  }

  /** A byte has at most eight binary digits. */
  lemma ByteDigits(v: nat)
    requires v < 256
    ensures |Binary(v)| <= 8
  {
    assert Pow2(8) == 256;
    BinaryShort(v, 8);
  }

  /** A byte is written as exactly eight digits, '1' exactly where its bit is set. */
  lemma PaddedBinaryOfByte(v: nat)
    requires v < 256
    ensures |PaddedBinary(v)| == 8
    ensures forall j :: 0 <= j < 8 ==> PaddedBinary(v)[j] == if ByteBits(v)[j] then '1' else '0'
  {
    ByteDigits(v);
    var p := LeftPad(Binary(v), 8, '0');
    assert PaddedBinary(v) == p;
    forall j | 0 <= j < 8
      ensures p[j] == if ByteBits(v)[j] then '1' else '0'
    {
      BitsAt(v, 8, j);
      PaddedDigit(v, j);
    }
  }

  /** Any other `int` (negative, or above 255) is written with more than eight digits. */
  lemma PaddedBinaryOfNonByte(v: int)
    requires MinInt <= v <= MaxInt && !(0 <= v < 256)
    ensures |PaddedBinary(v)| > 8
  {
    assert Pow2(8) == 256;
    BinaryLong(Unsigned32(v), 8, 256);
  }

  /**
   * The exception convertHexToBooleanArray throws on a line that is not all byte tokens: scanning
   * the tokens in order with `used` digits written so far, the first token Integer.parseInt
   * rejects gives NumberFormat, and the first write past the 8 * |line| slots gives IndexOutOfBounds.
   */
  function ScanError(line: seq<string>, i: nat, used: nat): Error
    requires i <= |line|
    decreases |line| - i
  {
    if i == |line| then IndexOutOfBounds
    else match ParseHexInt(line[i])
      case Err(e) => e
      case Ok(v) =>
        var next := used + |PaddedBinary(v)|;
        if next > 8 * |line| then IndexOutOfBounds else ScanError(line, i + 1, next)
  }

  /** convertHexToBooleanArray(line) as a function: what the method below computes. */
  function Convert(line: seq<string>): Result<seq<bool>> {
    if AllByteTokens(line) then Ok(HexBits(line)) else Err(ScanError(line, 0, 0))
  }

  /** What the conversion knows about the slots it has filled after the first i tokens. */
  predicate Filled(line: seq<string>, i: nat, k: nat, filled: seq<bool>)
    requires i <= |line|
  {
    && 8 * i <= k == |filled|
    && (AllByteTokens(line[..i]) ==> k == 8 * i && filled == HexBits(line[..i]))
    && (!AllByteTokens(line[..i]) ==> k > 8 * i)
  }

  /** The scan state after the first i tokens: the filled slots, and the error still ahead. */
  predicate Scanned(line: seq<string>, i: nat, k: nat, filled: seq<bool>)
    requires i <= |line|
  {
    Filled(line, i, k, filled) && ScanError(line, 0, 0) == ScanError(line, i, k)
  }

  /** A token Integer.parseInt rejects: the conversion fails with the parse error. */
  lemma TokenUnparsable(line: seq<string>, i: nat, k: nat, filled: seq<bool>)
    requires i < |line| && ParseHexInt(line[i]).Err?
    requires Scanned(line, i, k, filled)
    ensures Convert(line) == Err(ParseHexInt(line[i]).error)
  {
  }

  /** A token whose digits do not fit: the conversion fails with an index error. */
  lemma TokenOverruns(line: seq<string>, i: nat, k: nat, filled: seq<bool>, v: int)
    requires i < |line| && ParseHexInt(line[i]) == Ok(v)
    requires Scanned(line, i, k, filled)
    requires k + |PaddedBinary(v)| > 8 * |line|
    ensures Convert(line) == Err(IndexOutOfBounds)
  {
    if AllByteTokens(line) {
      assert line[..i] == line[..|line|][..i];
      assert AllByteTokens(line[..i]);
      assert IsByteToken(line[i]);
      PaddedBinaryOfByte(v);
    }
  }

  /** All tokens scanned without running past the slots: the line was all bytes. */
  lemma ScanFinished(line: seq<string>, k: nat, filled: seq<bool>)
    requires Scanned(line, |line|, k, filled)
    requires k <= 8 * |line|
    ensures k == 8 * |line|
    ensures Convert(line) == Ok(filled)
  {
    assert line[..|line|] == line;
  }

  /** The booleans `digit == '1'` for a string of binary digits. */
  function DigitBools(digits: string): (bs: seq<bool>)
    ensures |bs| == |digits|
    ensures forall t :: 0 <= t < |digits| ==> bs[t] == (digits[t] == '1')
  {
    seq(|digits|, t requires 0 <= t < |digits| => digits[t] == '1')
  }

  /** The booleans written for a byte are its bits. */
  lemma DigitsOfByte(v: nat)
    requires v < 256
    ensures |PaddedBinary(v)| == 8 && DigitBools(PaddedBinary(v)) == ByteBits(v)
  {
    PaddedBinaryOfByte(v);
  }

  /**
   * The filled slots after one more token, whose digits d are its eight bits when it is a byte
   * and more than eight digits otherwise.
   */
  lemma FilledStep(line: seq<string>, i: nat, k: nat, filled: seq<bool>, v: int, d: string)
    requires i < |line| && ParseHexInt(line[i]) == Ok(v)
    requires Filled(line, i, k, filled)
    requires 0 <= v < 256 ==> |d| == 8 && DigitBools(d) == ByteBits(v)
    requires !(0 <= v < 256) ==> |d| > 8
    ensures Filled(line, i + 1, k + |d|, filled + DigitBools(d))
  {
    var front := line[..i + 1];
    assert front[..i] == line[..i];
    assert front[i] == line[i];
    assert AllByteTokens(front) <==> AllByteTokens(line[..i]) && IsByteToken(line[i]);
  }

  /** A token whose digits fit moves the scan on to the next token. */
  lemma ScanStep(line: seq<string>, i: nat, k: nat, v: int)
    requires i < |line| && ParseHexInt(line[i]) == Ok(v)
    requires k + |PaddedBinary(v)| <= 8 * |line|
    ensures ScanError(line, i, k) == ScanError(line, i + 1, k + |PaddedBinary(v)|)
  {
  }

  /** A token whose digits fit: the filled slots grow by its digits and the scan moves on. */
  lemma TokenWritten(line: seq<string>, i: nat, k: nat, filled: seq<bool>, v: int)
    requires i < |line| && ParseHexInt(line[i]) == Ok(v)
    requires Scanned(line, i, k, filled)
    requires k + |PaddedBinary(v)| <= 8 * |line|
    ensures Scanned(line, i + 1, k + |PaddedBinary(v)|, filled + DigitBools(PaddedBinary(v)))
  {
    if 0 <= v < 256 {
      DigitsOfByte(v);
    } else {
      PaddedBinaryOfNonByte(v);
    }
    FilledStep(line, i, k, filled, v, PaddedBinary(v));
    ScanStep(line, i, k, v);
  }

  /**
   * The inner loop of the conversion: writes `digits` one by one from slot k0 on, each as
   * `digit == '1'`, and reports an overrun when a write would pass the end of the array.
   */
  method WriteDigits(bools: array<bool>, k0: nat, digits: string) returns (k: nat, overrun: bool)
    requires k0 <= bools.Length
    modifies bools
    ensures overrun <==> k0 + |digits| > bools.Length
    ensures !overrun ==> k == k0 + |digits|
    ensures !overrun ==> bools[..k] == old(bools[..k0]) + DigitBools(digits)
  {
    k := k0;
    for j := 0 to |digits|
      invariant k == k0 + j <= bools.Length
      invariant bools[..k0] == old(bools[..k0])
      invariant forall t :: 0 <= t < j ==> bools[k0 + t] == (digits[t] == '1')
    {
      if k >= bools.Length {
        return k, true;
      }
      bools[k] := digits[j] == '1';
      k := k + 1;
    }
    overrun := false;
    assert bools[..k] == bools[..k0] + bools[k0..k];
    assert bools[k0..k] == DigitBools(digits);
  }

  /**
   * Fills an array of 8 * |line| booleans through a running index, one token after another, with
   * the digits of `leftPad(toBinaryString(parseInt(token, 16)), 8, '0')`. The contents are handed
   * back as a sequence: no caller changes the array.
   */
  method ConvertHexToBooleanArray(line: seq<string>) returns (r: Result<seq<bool>>)
    ensures r == Convert(line)
  {
    var bools := new bool[|line| * 8];
    var k: nat := 0;
    for i := 0 to |line|
      invariant k <= bools.Length
      invariant Scanned(line, i, k, bools[..k])
    {
      ghost var filled := bools[..k];
      var parsed := ParseHexInt(line[i]);
      if parsed.Err? {
        TokenUnparsable(line, i, k, filled);
        return Err(parsed.error);
      }
      var val := parsed.value;
      var binary := PaddedBinary(val);
      ghost var k0 := k;
      var overrun;
      k, overrun := WriteDigits(bools, k, binary);
      if overrun {
        TokenOverruns(line, i, k0, filled, val);
        return Err(IndexOutOfBounds);
      }
      TokenWritten(line, i, k0, filled, val);
    }
    ScanFinished(line, k, bools[..k]);
    return Ok(bools[..k]);
  }

  // ---------------------------------------------------------------- toInteger

  /**
   * The big-endian value of the booleans in Java `int` arithmetic: walks from the last boolean to
   * the first, adding `base` for each true one and doubling `base`, both wrapping at 32 bits.
   */
  method ToInteger(bools: seq<bool>) returns (value: int)
    ensures value == Int32(BigEndian(bools))
  {
    var base := 1;
    var index := |bools| - 1;
    value := 0;
    while index >= 0
      invariant -1 <= index < |bools|
      invariant base == Int32(Pow2(|bools| - 1 - index))
      invariant value == Int32(BigEndian(bools[index + 1..]))
    {
      ghost var rest := bools[index + 1..];
      assert bools[index..] == [bools[index]] + rest;
      BigEndianCons(bools[index], rest);
      ghost var weight := if bools[index] then Pow2(|rest|) else 0;
      Int32Add(BigEndian(rest), Int32(weight));
      Int32Add(weight, BigEndian(rest));
      value := Int32(value + (if bools[index] then base else 0));
      Int32Double(Pow2(|rest|));
      base := Int32(base * 2);
      index := index - 1;
    }
    assert bools[0..] == bools;
  }

  // ---------------------------------------------------------------- properties

  /** Element 8i+j of the expansion is bit 7-j of token i: bytes MSB first, in line order. */
  lemma {:induction false} HexBitsAt(line: seq<string>, i: nat, j: nat)
    requires AllByteTokens(line) && i < |line| && j < 8
    ensures HexBits(line)[8 * i + j] == Bit(TokenValue(line[i]), 7 - j)
    decreases |line|
  {
    var n := |line|;
    var init := line[..n - 1];
    assert AllByteTokens(init) by {
      assert forall t :: 0 <= t < |init| ==> init[t] == line[t];
    }
    var front, last := HexBits(init), ByteBits(TokenValue(line[n - 1]));
    assert HexBits(line) == front + last;
    if i < n - 1 {
      assert 8 * i + j < |front|;
      HexBitsAt(init, i, j);
    } else {
      assert 8 * i + j == |front| + j;
      BitsAt(TokenValue(line[i]), 8, j);
    }
  }

  /** With at most 31 booleans no `int` overflow happens: the value is exact and below 2^n. */
  lemma ToIntegerExact(bools: seq<bool>)
    requires |bools| <= 31
    ensures Int32(BigEndian(bools)) == BigEndian(bools) < Pow2(|bools|)
  {
    BigEndianBound(bools);
    Pow2Monotone(|bools|, 31);
    Pow2Of31();
  }

  /** toInteger(convertHexToBooleanArray(t)) is the byte value of a single token t. */
  lemma ConvertThenToInteger(t: string)
    requires IsByteToken(t)
    ensures Convert([t]).Ok?
    ensures Int32(BigEndian(Convert([t]).value)) == TokenValue(t)
  {
    assert AllByteTokens([t]);
    assert [t][..0] == [];
    assert HexBits([t]) == ByteBits(TokenValue(t));
    assert Pow2(8) == 256;
    BigEndianBits(TokenValue(t), 8);
    ToIntegerExact(ByteBits(TokenValue(t)));
  }

  /** A single token converts to its eight bits, or to the exception its text causes. */
  lemma ConvertOne(t: string)
    ensures Convert([t]) == match ParseHexInt(t)
      case Err(e) => Err(e)
      case Ok(v) => if 0 <= v < 256 then Ok(ByteBits(v)) else Err(IndexOutOfBounds)
  {
    assert [t][..0] == [] && [t][0] == t;
    match ParseHexInt(t)
    case Err(e) =>
    case Ok(v) =>
      if 0 <= v < 256 {
        assert AllByteTokens([t]);
        assert HexBits([t]) == ByteBits(v);
      } else {
        PaddedBinaryOfNonByte(v);
        assert !AllByteTokens([t]);
        assert ScanError([t], 0, 0) == IndexOutOfBounds;
      }
  }

  lemma ExampleTokens()
    ensures ParseHexInt("03") == Ok(3)
    ensures AllByteTokens(["03", "01", "00", "00"])
  {
    Hex2Digits(3);
    Hex2Digits(1);
    Hex2Digits(0);
    assert HexChar(0) == '0' && HexChar(1) == '1' && HexChar(3) == '3';
    var line := ["03", "01", "00", "00"];
    forall i | 0 <= i < 4
      ensures IsByteToken(line[i])
    {
      if i == 0 {
        assert line[i] == Hex2(3);
      } else if i == 1 {
        assert line[i] == Hex2(1);
      } else {
        assert line[i] == Hex2(0);
      }
    }
  }

  /** "03 01 00 00", a supported-PIDs answer, gives 32 booleans; 0x03 sets the last two of byte 0. */
  lemma SupportedPidsExample()
    ensures Convert(["03", "01", "00", "00"]).Ok?
    ensures |Convert(["03", "01", "00", "00"]).value| == 32
    ensures Convert(["03", "01", "00", "00"]).value[..8] == [false, false, false, false, false, false, true, true]
  {
    var line := ["03", "01", "00", "00"];
    ExampleTokens();
    var bits := HexBits(line);
    forall j | 0 <= j < 8
      ensures bits[j] == Bits(3, 8)[j]
    {
      HexBitsAt(line, 0, j);
      BitsAt(3, 8, j);
    }
    assert bits[..8] == Bits(3, 8);
  }
}
