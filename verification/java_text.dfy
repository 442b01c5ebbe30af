/**
 * The parts of the Java platform and of commons-lang that the modelled code relies on:
 * Integer.parseInt(s, 16), Integer.toHexString, Integer.toBinaryString, StringUtils.leftPad,
 * String.trim, String.split(" "), StringUtils.split(s, c), String.equalsIgnoreCase and
 * 32-bit `int` arithmetic. Only ASCII hex digits and ASCII case folding are modelled: the
 * Unicode digits Character.digit accepts and the non-ASCII case mappings of equalsIgnoreCase are not.
 */
module JavaText {
  import opened Wrappers

  const MinInt: int := -0x8000_0000
  const MaxInt: int := 0x7fff_ffff
  const TwoTo32: int := 0x1_0000_0000

  /** Java `int` arithmetic: the 32-bit two's-complement value congruent to x. */
  function Int32(x: int): (r: int)
    ensures MinInt <= r <= MaxInt
    ensures MinInt <= x <= MaxInt ==> r == x
  {
    (x - MinInt) % TwoTo32 + MinInt
  }

  /** Java's `int` operations agree with exact arithmetic reduced modulo 2^32. */
  lemma Int32Shift(x: int, k: int)
    ensures Int32(x + k * TwoTo32) == Int32(x)
  {
    var a := x - MinInt;
    assert (a + k * TwoTo32) % TwoTo32 == a % TwoTo32 by {
      var q := a / TwoTo32;
      assert a == q * TwoTo32 + a % TwoTo32;
      assert a + k * TwoTo32 == (q + k) * TwoTo32 + a % TwoTo32;
    }
  }

  lemma Int32Add(x: int, y: int)
    ensures Int32(Int32(x) + y) == Int32(x + y)
  {
    var a := x - MinInt;
    var q := a / TwoTo32;
    assert Int32(x) == x - q * TwoTo32;
    Int32Shift(x + y, -q);
  }

  lemma Int32Double(x: int)
    ensures Int32(Int32(x) * 2) == Int32(x * 2)
  {
    var a := x - MinInt;
    var q := a / TwoTo32;
    assert Int32(x) == x - q * TwoTo32;
    assert Int32(x) * 2 == x * 2 + (-2 * q) * TwoTo32;
    Int32Shift(x * 2, -2 * q);
  }

  /** The unsigned reading of a Java `int`, as Integer.toHexString and toBinaryString use it. */
  function Unsigned32(v: int): (u: nat)
    requires MinInt <= v <= MaxInt
    ensures u < TwoTo32
    ensures v >= 0 ==> u == v
  {
    if v >= 0 then v else v + TwoTo32
  }

  // ---------------------------------------------------------------- hex digits

  predicate IsHexDigit(c: char) {
    '0' <= c <= '9' || 'a' <= c <= 'f' || 'A' <= c <= 'F'
  }

  predicate AllHexDigits(s: string) {
    forall i :: 0 <= i < |s| ==> IsHexDigit(s[i])
  }

  /** Character.digit(c, 16) on an ASCII hex digit. */
  function DigitValue(c: char): (d: nat)
    requires IsHexDigit(c)
    ensures d < 16
  {
    if '0' <= c <= '9' then c as int - '0' as int
    else if 'a' <= c <= 'f' then c as int - 'a' as int + 10
    else c as int - 'A' as int + 10
  }

  /** The lowercase digit Integer.toHexString writes for d. */
  function HexChar(d: nat): (c: char)
    requires d < 16
    ensures IsHexDigit(c) && DigitValue(c) == d
    ensures c != '-' && c != '+'
  {
    if d < 10 then ('0' as int + d) as char else ('a' as int + d - 10) as char
  }

  lemma HexCharInjective(d: nat, e: nat)
    requires d < 16 && e < 16
    ensures HexChar(d) == HexChar(e) <==> d == e
  {
  }

  /** The value of a string of hex digits, most significant first. */
  function HexValue(s: string): nat
    requires AllHexDigits(s)
  {
    if |s| == 0 then 0 else HexValue(s[..|s| - 1]) * 16 + DigitValue(s[|s| - 1])
  }

  /**
   * Integer.parseInt(s, 16): an optional sign, then at least one hex digit; a value outside the
   * `int` range is rejected like malformed text.
   */
  function ParseHexInt(s: string): (r: Result<int>)
    ensures r.Ok? ==> MinInt <= r.value <= MaxInt
    ensures r.Err? ==> r.error == NumberFormat
  {
    if |s| == 0 then Err(NumberFormat)
    else
      var digits := if s[0] == '-' || s[0] == '+' then s[1..] else s;
      if |digits| == 0 || !AllHexDigits(digits) then Err(NumberFormat)
      else
        var h: int := HexValue(digits);
        var v := if s[0] == '-' then -h else h;
        if v < MinInt || v > MaxInt then Err(NumberFormat) else Ok(v)
  }

  /** A token that Integer.parseInt(s, 16) reads as a value 0..255. */
  predicate IsByteToken(s: string) {
    var r := ParseHexInt(s);
    r.Ok? && 0 <= r.value < 256
  }

  /** Integer.toHexString on a non-negative value: lowercase, no leading zeros, "0" for 0. */
  function ToHexString(n: nat): (s: string)
    ensures 1 <= |s| && AllHexDigits(s)
    ensures HexValue(s) == n
    ensures s[0] != '-' && s[0] != '+'
  {
    if n < 16 then [HexChar(n)]
    else
      var s := ToHexString(n / 16) + [HexChar(n % 16)];
      assert s[..|s| - 1] == ToHexString(n / 16);
      s
  }

  /** Integer.parseInt(Integer.toHexString(n), 16) == n for every non-negative `int`. */
  lemma {:induction false} ParseToHexString(n: nat)
    requires n <= MaxInt
    ensures ParseHexInt(ToHexString(n)) == Ok(n)
  {
    var s := ToHexString(n);
    assert s[0] != '-' && s[0] != '+';
  }

  /** StringUtils.leftPad(s, size, pad). */
  function LeftPad(s: string, size: nat, pad: char): (r: string)
    ensures |r| == if |s| >= size then |s| else size
    ensures r[|r| - |s|..] == s
    ensures forall i :: 0 <= i < |r| - |s| ==> r[i] == pad
  {
    if |s| >= size then s else seq(size - |s|, _ => pad) + s
  }

  /** The two-digit form `leftPad(toHexString(n), 2, '0')` of a value 0..255. */
  function Hex2(n: nat): (s: string)
    requires n < 256
  {
    LeftPad(ToHexString(n), 2, '0')
  }

  /** Hex2 writes the high and the low nibble, and Integer.parseInt reads it back. */
  lemma {:induction false} Hex2Digits(n: nat)
    requires n < 256
    ensures Hex2(n) == [HexChar(n / 16), HexChar(n % 16)]
    ensures ParseHexInt(Hex2(n)) == Ok(n)
  {
    var s := [HexChar(n / 16), HexChar(n % 16)];
    if n < 16 {
      assert ToHexString(n) == [HexChar(n)];
      assert Hex2(n) == ['0'] + [HexChar(n)];
    } else {
      assert ToHexString(n / 16) == [HexChar(n / 16)];
      assert ToHexString(n) == s;
    }
    assert s[..1] == [HexChar(n / 16)];
    assert HexValue(s) == (n / 16) * 16 + n % 16;
    assert s[0] != '-' && s[0] != '+';
  }

  // ---------------------------------------------------------------- binary digits

  /** Integer.toBinaryString on a non-negative value. */
  function Binary(n: nat): (s: string)
    ensures 1 <= |s|
  {
    if n < 2 then [if n == 1 then '1' else '0']
    else Binary(n / 2) + [if n % 2 == 1 then '1' else '0']
  }

  /** Integer.toBinaryString on any `int`: negative values print 32 digits. */
  function BinaryString(v: int): string
    requires MinInt <= v <= MaxInt
  {
    Binary(Unsigned32(v))
  }

  /** A value of at least 2^k needs more than k binary digits. */
  lemma {:induction false} BinaryLong(n: nat, k: nat, p: nat)
    requires p == Pow2(k) && n >= p
    ensures |Binary(n)| > k
    decreases k
  {
    if k > 0 {
      BinaryLong(n / 2, k - 1, p / 2);
    }
  }

  function Pow2(k: nat): (p: nat)
    ensures p >= 1
  {
    if k == 0 then 1 else 2 * Pow2(k - 1)
  }

  // ---------------------------------------------------------------- trimming and splitting

  /** The characters String.trim removes. */
  predicate IsBlank(c: char) {
    c <= ' '
  }

  predicate AllBlank(s: string) {
    forall i :: 0 <= i < |s| ==> IsBlank(s[i])
  }

  /** The index of the first non-blank character at or after lo, or |s|. */
  function TrimFrom(s: string, lo: nat): (a: nat)
    requires lo <= |s|
    ensures lo <= a <= |s|
    ensures forall i :: lo <= i < a ==> IsBlank(s[i])
    ensures a < |s| ==> !IsBlank(s[a])
    decreases |s| - lo
  {
    if lo < |s| && IsBlank(s[lo]) then TrimFrom(s, lo + 1) else lo
  }

  /** One past the last non-blank character in s[lo..hi], or lo. */
  function TrimTo(s: string, lo: nat, hi: nat): (b: nat)
    requires lo <= hi <= |s|
    ensures lo <= b <= hi
    ensures forall i :: b <= i < hi ==> IsBlank(s[i])
    ensures b > lo ==> !IsBlank(s[b - 1])
  {
    if hi > lo && IsBlank(s[hi - 1]) then TrimTo(s, lo, hi - 1) else hi
  }

  /** String.trim: the string without its leading and trailing characters up to ' '. */
  function Trim(s: string): (r: string)
    ensures r == [] <==> AllBlank(s)
    ensures r != [] ==> !IsBlank(r[0]) && !IsBlank(r[|r| - 1])
    ensures forall k :: 0 <= k < |r| ==> r[k] in s
  {
    var a := TrimFrom(s, 0);
    var b := TrimTo(s, a, |s|);
    assert a < b ==> s[a..b][0] == s[a];
    s[a..b]
  }

  /** All pieces between the separators, empty ones included (the core of String.split). */
  function SplitAll(s: string, sep: char): (r: seq<string>)
    ensures |r| >= 1
    ensures forall k :: 0 <= k < |r| ==> sep !in r[k]
  {
    if |s| == 0 then [""]
    else if s[0] == sep then [""] + SplitAll(s[1..], sep)
    else
      var rest := SplitAll(s[1..], sep);
      [[s[0]] + rest[0]] + rest[1..]
  }

  function DropTrailingEmpty(ts: seq<string>): (r: seq<string>)
    ensures |r| <= |ts| && r == ts[..|r|]
    ensures r == [] || r[|r| - 1] != ""
  {
    if |ts| > 0 && ts[|ts| - 1] == "" then DropTrailingEmpty(ts[..|ts| - 1]) else ts
  }

  /** String.split(" ") as Java does it: no separator gives [s]; trailing empty pieces are dropped. */
  function JavaSplit(s: string, sep: char): seq<string> {
    if sep !in s then [s] else DropTrailingEmpty(SplitAll(s, sep))
  }

  function NonEmpty(ts: seq<string>): (r: seq<string>)
    ensures forall k :: 0 <= k < |r| ==> r[k] != [] && r[k] in ts
  {
    if |ts| == 0 then []
    else if ts[0] == [] then NonEmpty(ts[1..])
    else [ts[0]] + NonEmpty(ts[1..])
  }

  /** StringUtils.split(s, c): the non-empty pieces between separators; adjacent separators count as one. */
  function SplitTokens(s: string, sep: char): (r: seq<string>)
    ensures forall k :: 0 <= k < |r| ==> r[k] != [] && sep !in r[k]
  {
    NonEmpty(SplitAll(s, sep))
  }

  // ---------------------------------------------------------------- comparisons

  function EndsWith(s: string, suffix: string): bool {
    |suffix| <= |s| && s[|s| - |suffix|..] == suffix
  }

  /** ASCII upper-casing, as Character.toUpperCase does on ASCII letters. */
  function Upper(c: char): char {
    if 'a' <= c <= 'z' then (c as int - 32) as char else c
  }

  /** a.equalsIgnoreCase(b); a null b is never equal. */
  predicate EqualsIgnoreCase(a: string, b: Option<string>) {
    b.Some? && |a| == |b.value| && forall i :: 0 <= i < |a| ==> Upper(a[i]) == Upper(b.value[i])
  }

  /** The text written by writing each part in turn. */
  function Concat(parts: seq<string>): string {
    if |parts| == 0 then "" else Concat(parts[..|parts| - 1]) + parts[|parts| - 1]
  }

  lemma {:induction false} ConcatAppend(a: seq<string>, b: seq<string>)
    ensures Concat(a + b) == Concat(a) + Concat(b)
    decreases |b|
  {
    if |b| > 0 {
      assert (a + b)[..|a + b| - 1] == a + b[..|b| - 1];
      ConcatAppend(a, b[..|b| - 1]);
    } else {
      assert a + b == a;
    }
  }
}
