/**
 * Fault: a diagnostic trouble code decoded from the two bytes of a service $03 answer, in the
 * five-character SAE J2012 form (letter, digit 0-3, three hex digits).
 */
module Faults {
  import opened Wrappers
  import opened JavaText
  import opened SerialUtils

  /** A trouble code; `code` is what getCode returns. */
  datatype Fault = Fault(code: string)

  /** The system letter for bits a0 a1: powertrain, chassis, body, network. */
  function FirstChar(a0: bool, a1: bool): char {
    if a0 then (if a1 then 'U' else 'B') else (if a1 then 'C' else 'P')
  }

  /** The digit 0-3 for bits a2 a3. */
  function SecondChar(a2: bool, a3: bool): char {
    if a2 then (if a3 then '3' else '2') else (if a3 then '1' else '0')
  }

  /** What toHex returns: Integer.toHexString of the booleans folded in `int` arithmetic. */
  function HexOf(bools: seq<bool>): string {
    ToHexString(Unsigned32(Int32(BigEndian(bools))))
  }

  /** Four booleans make a single lowercase hex digit. */
  lemma NibbleHex(bools: seq<bool>)
    requires |bools| == 4
    ensures BigEndian(bools) < 16
    ensures HexOf(bools) == [HexChar(BigEndian(bools))]
  {
    ToIntegerExact(bools);
    assert Pow2(4) == 16;
  }

  /**
   * Fault.decode: the letter from a[0..2], the digit from a[2..4], then one hex digit for each
   * of the nibbles a[4..8], b[0..4] and b[4..8]. An array shorter than 8 raises an index error.
   */
  function Decode(a: seq<bool>, b: seq<bool>): (r: Result<Fault>)
    ensures r.Ok? <==> |a| >= 8 && |b| >= 8
    ensures r.Err? ==> r.error == IndexOutOfBounds
    ensures r.Ok? ==> |r.value.code| == 5
  {
    if |a| < 8 || |b| < 8 then Err(IndexOutOfBounds)
    else
      NibbleHex(a[4..8]);
      NibbleHex(b[0..4]);
      NibbleHex(b[4..8]);
      Ok(Fault([FirstChar(a[0], a[1]), SecondChar(a[2], a[3])]
               + HexOf(a[4..8]) + HexOf(b[0..4]) + HexOf(b[4..8])))
  }

  /**
   * Fault.toHex: the loop of toInteger followed by Integer.toHexString. Decode calls it only on
   * four booleans, which give one digit.
   */
  method ToHex(bools: seq<bool>) returns (s: string)
    ensures s == HexOf(bools)
    ensures |bools| == 4 ==> BigEndian(bools) < 16 && s == [HexChar(BigEndian(bools))]
  {
    var value := ToInteger(bools);
    s := ToHexString(Unsigned32(value));
    if |bools| == 4 {
      NibbleHex(bools);
    }
  }

  /** The five characters field by field, each a function of the value of its bit field. */
  lemma DecodeFields(a: seq<bool>, b: seq<bool>)
    requires |a| >= 8 && |b| >= 8
    ensures BigEndian(a[..2]) < 4 && BigEndian(a[2..4]) < 4
    ensures BigEndian(a[4..8]) < 16 && BigEndian(b[..4]) < 16 && BigEndian(b[4..8]) < 16
    ensures Decode(a, b).value.code ==
      ["PCBU"[BigEndian(a[..2])], HexChar(BigEndian(a[2..4])),
       HexChar(BigEndian(a[4..8])), HexChar(BigEndian(b[..4])), HexChar(BigEndian(b[4..8]))]
  {
    var x, y := a[..2], a[2..4];
    BigEndianBound(x);
    BigEndianBound(y);
    assert Pow2(2) == 4;
    assert x == [a[0]] + [a[1]] && x[..1] == [a[0]];
    assert y == [a[2]] + [a[3]] && y[..1] == [a[2]];
    NibbleHex(a[4..8]);
    NibbleHex(b[0..4]);
    NibbleHex(b[4..8]);
    assert b[..4] == b[0..4];
  }

  /** The letter is P, C, B, U for (a0, a1) = (0,0), (0,1), (1,0), (1,1). */
  lemma DecodeLetter(a: seq<bool>, b: seq<bool>)
    requires |a| >= 8 && |b| >= 8
    ensures Decode(a, b).value.code[0] == if !a[0] && !a[1] then 'P'
      else if !a[0] && a[1] then 'C' else if a[0] && !a[1] then 'B' else 'U'
    ensures Decode(a, b).value.code[1] == if !a[2] && !a[3] then '0'
      else if !a[2] && a[3] then '1' else if a[2] && !a[3] then '2' else '3'
  {
  }

  /** All-false input decodes to "P0000", the code the error report leaves out. */
  lemma DecodeAllFalse()
    ensures Decode(seq(8, _ => false), seq(8, _ => false)) == Ok(Fault("P0000"))
  {
    var z := seq(8, _ => false);
    DecodeFields(z, z);
    assert BigEndian(z[..2]) == 0 by {
      assert z[..2][..1] == [false];
    }
    assert BigEndian(z[2..4]) == 0 by {
      assert z[2..4][..1] == [false];
    }
    assert BigEndian(z[4..8]) == 0 by {
      assert z[4..8] == z[..4] && z[..4][..3] == z[..3] && z[..3][..2] == z[..2] && z[..2][..1] == z[..1];
    }
    assert BigEndian(z[..4]) == 0 by {
      assert z[..4][..3] == z[..3] && z[..3][..2] == z[..2] && z[..2][..1] == z[..1];
    }
  }

  /** Equal codes have equal field values: every character is decoded one-to-one. */
  lemma SameFields(a: seq<bool>, b: seq<bool>, c: seq<bool>, d: seq<bool>)
    requires |a| >= 8 && |b| >= 8 && |c| >= 8 && |d| >= 8
    requires Decode(a, b) == Decode(c, d)
    ensures BigEndian(a[..2]) == BigEndian(c[..2]) && BigEndian(a[2..4]) == BigEndian(c[2..4])
    ensures BigEndian(a[4..8]) == BigEndian(c[4..8])
    ensures BigEndian(b[..4]) == BigEndian(d[..4]) && BigEndian(b[4..8]) == BigEndian(d[4..8])
  {
    DecodeFields(a, b);
    DecodeFields(c, d);
    var s := "PCBU";
    assert s[0] != s[1] && s[0] != s[2] && s[0] != s[3] && s[1] != s[2] && s[1] != s[3] && s[2] != s[3];
    HexCharInjective(BigEndian(a[2..4]), BigEndian(c[2..4]));
    HexCharInjective(BigEndian(a[4..8]), BigEndian(c[4..8]));
    HexCharInjective(BigEndian(b[..4]), BigEndian(d[..4]));
    HexCharInjective(BigEndian(b[4..8]), BigEndian(d[4..8]));
  }

  /** Different 16-bit inputs give different codes: every field is decoded one-to-one. */
  lemma DecodeInjective(a: seq<bool>, b: seq<bool>, c: seq<bool>, d: seq<bool>)
    requires |a| >= 8 && |b| >= 8 && |c| >= 8 && |d| >= 8
    requires Decode(a, b) == Decode(c, d)
    ensures a[..8] == c[..8] && b[..8] == d[..8]
  {
    SameFields(a, b, c, d);
    BigEndianInjective(a[..2], c[..2]);
    BigEndianInjective(a[2..4], c[2..4]);
    BigEndianInjective(a[4..8], c[4..8]);
    BigEndianInjective(b[..4], d[..4]);
    BigEndianInjective(b[4..8], d[4..8]);
    assert a[..8] == a[..2] + a[2..4] + a[4..8];
    assert c[..8] == c[..2] + c[2..4] + c[4..8];
    assert b[..8] == b[..4] + b[4..8];
    assert d[..8] == d[..4] + d[4..8];
  }

  lemma {:induction false} ShrShr(n: nat, i: nat, j: nat)
    ensures Shr(Shr(n, i), j) == Shr(n, i + j)
    decreases i
  {
    if i > 0 {
      ShrShr(n / 2, i - 1, j);
    }
  }

  /** The value of the k bits of a value below 2^k is the value itself. */
  lemma BitsValue(n: nat, k: nat)
    requires n < Pow2(k)
    ensures BigEndian(Bits(n, k)) == n
  {
    BigEndianBitsMod(n, k);
  }

  /** Bits 7-4 of a byte, MSB first, hold x / 16; bits 3-0 hold x % 16. */
  lemma ByteNibbles(x: nat)
    requires x < 256
    ensures ByteBits(x)[..4] == Bits(x / 16, 4)
    ensures BigEndian(ByteBits(x)[..4]) == x / 16
    ensures BigEndian(ByteBits(x)[4..8]) == x % 16
  {
    assert Pow2(4) == 16;
    ShrDiv(x, 4);
    BitsSplit(x, 4, 4);
    BitsValue(x / 16, 4);
    assert ByteBits(x)[4..8] == Bits(x, 4);
    BigEndianBitsMod(x, 4);
  }

  /** Bits 7-6 of a byte hold x / 64 and bits 5-4 hold x / 16 % 4. */
  lemma ByteTopBits(x: nat)
    requires x < 256
    ensures BigEndian(ByteBits(x)[..2]) == x / 64
    ensures BigEndian(ByteBits(x)[2..4]) == x / 16 % 4
  {
    ByteNibbles(x);
    var high := x / 16;
    assert Pow2(2) == 4;
    ShrDiv(high, 2);
    BitsSplit(high, 2, 2);
    assert ByteBits(x)[..2] == Bits(high, 4)[..2];
    assert ByteBits(x)[2..4] == Bits(high, 4)[2..4];
    BitsValue(high / 4, 2);
    BigEndianBitsMod(high, 2);
    assert high / 4 == x / 64;
  }

  /**
   * The code of bytes A B read from the bus: letter A >> 6, digit (A >> 4) & 3, then the hex
   * digits of A & 15, B >> 4 and B & 15.
   */
  lemma DecodeBytes(x: nat, y: nat)
    requires x < 256 && y < 256
    ensures Decode(ByteBits(x), ByteBits(y)) == Ok(Fault(
      ["PCBU"[x / 64], HexChar(x / 16 % 4), HexChar(x % 16), HexChar(y / 16), HexChar(y % 16)]))
  {
    DecodeFields(ByteBits(x), ByteBits(y));
    ByteNibbles(x);
    ByteTopBits(x);
    ByteNibbles(y);
  }
}
