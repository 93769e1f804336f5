/** The byte codecs of the client and the directory. A Java `int` is kept as its four octets, so
    `<< 8`, `|`, `& 0xFF` and sign extension act on octets. */
module Serialization {
  import opened Words

  /** Bitwise or. */
  function BitOr(x: nat, y: nat): nat {
    if x == 0 && y == 0 then 0
    else 2 * BitOr(x / 2, y / 2) + (if x % 2 == 1 || y % 2 == 1 then 1 else 0)
  }

  function Ones(k: nat): nat {
    if k == 0 then 0 else 2 * Ones(k - 1) + 1
  }

  lemma {:induction false} OrWithZero(x: nat)
    ensures BitOr(x, 0) == x && BitOr(0, x) == x
  {
    if x != 0 { OrWithZero(x / 2); }
  }

  /** All ones absorb whatever fits below them. */
  lemma {:induction false} OrWithOnes(x: nat, k: nat)
    requires x <= Ones(k)
    ensures BitOr(x, Ones(k)) == Ones(k)
    decreases k
  {
    if k > 0 {
      var ones := Ones(k);
      assert ones / 2 == Ones(k - 1) && ones % 2 == 1;
      OrWithOnes(x / 2, k - 1);
      assert BitOr(x, ones) == 2 * BitOr(x / 2, ones / 2) + 1;
    }
  }

  lemma {:induction false} OrStaysBelow(x: nat, y: nat, k: nat)
    requires x <= Ones(k) && y <= Ones(k)
    ensures BitOr(x, y) <= Ones(k)
    decreases k
  {
    if k > 0 { OrStaysBelow(x / 2, y / 2, k - 1); }
  }

  /** Bitwise or of octets, with the operands that the codecs meet spelled out. */
  function OrOctet(x: Octet, y: Octet): Octet {
    if x == 0 then y
    else if y == 0 then x
    else if y == 0xff then 0xff
    else OctetsStayOctets(x, y); BitOr(x, y)
  }

  lemma OctetsStayOctets(x: Octet, y: Octet)
    ensures BitOr(x, y) <= 0xff
  {
    assert Ones(8) == 0xff by { assert Ones(4) == 15; }
    OrStaysBelow(x, y, 8);
  }

  /** The operands spelled out change nothing: it is the bitwise or on all octets. */
  lemma OrOctetIsBitOr(x: Octet, y: Octet)
    ensures OrOctet(x, y) == BitOr(x, y)
  {
    assert Ones(8) == 0xff by { assert Ones(4) == 15; }
    OrWithOnes(x, 8);
    OrWithZero(x);
    OrWithZero(y);
  }

  /** A Java `int`, most significant octet first. */
  datatype Int32 = Int32(b3: Octet, b2: Octet, b1: Octet, b0: Octet)

  /** A `byte` operand promoted to `int`. */
  function Widen(b: Byte): Int32 {
    var sign: Octet := if b < 0 then 0xff else 0;
    Int32(sign, sign, sign, ToOctet(b))
  }

  function Masked(b: Byte): Int32 {
    Int32(0, 0, 0, Widen(b).b0)
  }

  function Shift8(i: Int32): Int32 {
    Int32(i.b2, i.b1, i.b0, 0)
  }

  function Or(i: Int32, j: Int32): Int32 {
    Int32(OrOctet(i.b3, j.b3), OrOctet(i.b2, j.b2), OrOctet(i.b1, j.b1), OrOctet(i.b0, j.b0))
  }

  /** The cast to `char`. */
  function LowChar(i: Int32): Char16 {
    0x100 * i.b1 + i.b0
  }

  function Value(i: Int32): int {
    Signed(0x100_0000 * i.b3 + 0x1_0000 * i.b2 + 0x100 * i.b1 + i.b0)
  }

  // ----- The decoders -----

  /** `(char) ((b[start] << 8) | b[start+1])`: the low byte is sign-extended first. */
  function CharAt(hi: Byte, lo: Byte): Char16 {
    LowChar(Or(Shift8(Widen(hi)), Widen(lo)))
  }

  /** `(char) (((b[0] & 0xFF) << 8) | (b[1] & 0xFF))`. */
  function CharOf(hi: Byte, lo: Byte): Char16 {
    LowChar(Or(Shift8(Masked(hi)), Masked(lo)))
  }

  /** `byteArrayToInt`: four bytes, most significant first. */
  function IntOf(b0: Byte, b1: Byte, b2: Byte, b3: Byte): int {
    Value(Or(Or(Or(Shift8(Shift8(Shift8(Masked(b0)))), Shift8(Shift8(Masked(b1)))), Shift8(Masked(b2))), Masked(b3)))
  }

  // ----- The encoders -----

  function HighByte(c: Char16): Byte {
    ToByte(c / 0x100)
  }

  function LowByte(c: Char16): Byte {
    ToByte(c)
  }

  function PutChar(c: Char16): seq<Byte> {
    [HighByte(c), LowByte(c)]
  }

  /** `putInt`, most significant byte first. */
  function PutInt(x: int): seq<Byte>
    requires -0x8000_0000 <= x <= 0x7fff_ffff
  {
    var w := Wrap(x);
    [ToByte(w / 0x100_0000), ToByte(w / 0x1_0000), ToByte(w / 0x100), ToByte(w)]
  }

  // ----- What the decoders compute -----

  lemma CharOfIs(hi: Byte, lo: Byte)
    ensures CharOf(hi, lo) == 0x100 * ToOctet(hi) + ToOctet(lo)
  {
  }

  /** A negative low byte overwrites the high byte with ones. */
  lemma CharAtIs(hi: Byte, lo: Byte)
    ensures CharAt(hi, lo) == if lo >= 0 then 0x100 * ToOctet(hi) + lo else 0xff00 + ToOctet(lo)
  {
  }

  lemma IntOfIs(b0: Byte, b1: Byte, b2: Byte, b3: Byte)
    ensures IntOf(b0, b1, b2, b3)
         == Signed(0x100_0000 * ToOctet(b0) + 0x1_0000 * ToOctet(b1) + 0x100 * ToOctet(b2) + ToOctet(b3))
  {
    var i1 := Shift8(Shift8(Shift8(Masked(b0))));
    var i2 := Or(i1, Shift8(Shift8(Masked(b1))));
    assert i2 == Int32(ToOctet(b0), ToOctet(b1), 0, 0);
    var i3 := Or(i2, Shift8(Masked(b2)));
    assert i3 == Int32(ToOctet(b0), ToOctet(b1), ToOctet(b2), 0);
    assert Or(i3, Masked(b3)) == Int32(ToOctet(b0), ToOctet(b1), ToOctet(b2), ToOctet(b3));
  }

  // ----- Round trips -----

  lemma OctetsOfChar(c: Char16)
    ensures c == 0x100 * ToOctet(HighByte(c)) + ToOctet(LowByte(c))
    ensures ToOctet(LowByte(c)) == c % 0x100 && ToOctet(HighByte(c)) == c / 0x100
    ensures LowByte(c) >= 0 <==> c % 0x100 < 0x80
    ensures LowByte(c) >= 0 ==> LowByte(c) == c % 0x100
  {
    OctetOfByte(c / 0x100);
    OctetOfByte(c);
  }

  /** The unindexed decoder inverts the encoder on every address. */
  lemma CharRoundTrip(c: Char16)
    ensures CharOf(HighByte(c), LowByte(c)) == c
  {
    OctetsOfChar(c);
    CharOfIs(HighByte(c), LowByte(c));
  }

  /** An address whose low byte is below 128 or whose high byte is 0xFF. */
  predicate SignSafe(c: Char16) {
    c % 0x100 < 0x80 || c / 0x100 == 0xff
  }

  /** What the indexed decoder makes of an encoded address. */
  function Decoded(c: Char16): Char16 {
    if c % 0x100 < 0x80 then c else 0xff00 + c % 0x100
  }

  /** The indexed decoder inverts the encoder on exactly the sign-safe addresses. */
  lemma CharAtRoundTripIff(c: Char16)
    ensures CharAt(HighByte(c), LowByte(c)) == Decoded(c)
    ensures Decoded(c) == c <==> SignSafe(c)
  {
    OctetsOfChar(c);
    CharAtIs(HighByte(c), LowByte(c));
  }

  lemma OctetsOfWord(w: Word)
    ensures w == 0x100_0000 * (w / 0x100_0000 % 0x100) + 0x1_0000 * (w / 0x1_0000 % 0x100)
               + 0x100 * (w / 0x100 % 0x100) + w % 0x100
  {
    assert w / 0x100 / 0x100 == w / 0x1_0000;
    assert w / 0x1_0000 / 0x100 == w / 0x100_0000;
  }

  /** Seeds survive `putInt` and `byteArrayToInt`. */
  lemma IntRoundTrip(x: int, b: seq<Byte>)
    requires -0x8000_0000 <= x <= 0x7fff_ffff && b == PutInt(x)
    ensures IntOf(b[0], b[1], b[2], b[3]) == x
  {
    var w := Wrap(x);
    OctetOfByte(w / 0x100_0000);
    OctetOfByte(w / 0x1_0000);
    OctetOfByte(w / 0x100);
    OctetOfByte(w);
    OctetsOfWord(w);
    SignedIsExact(x);
    IntOfIs(b[0], b[1], b[2], b[3]);
  }
}
