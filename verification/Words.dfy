/** Fixed-width integers of the C and Java sources, as ranges of the integers.
    Wrapping and sign reinterpretation are always written out. */
module Words {

  /** A `uint32_t`. */
  type Word = w: int | 0 <= w < 0x1_0000_0000

  /** A C `uint8_t`. */
  type Octet = b: int | 0 <= b < 0x100

  /** A Java `byte`. */
  type Byte = b: int | -0x80 <= b < 0x80

  /** A Java `char`. */
  type Char16 = c: int | 0 <= c < 0x1_0000

  datatype Option<+T> = None | Some(value: T)

  /** Reduction to 32 bits, the value an unsigned C expression keeps. */
  function Wrap(x: int): Word {
    x % 0x1_0000_0000
  }

  /** An unsigned word read as an `int32_t`. */
  function Signed(w: Word): (r: int)
    ensures -0x8000_0000 <= r <= 0x7fff_ffff
    ensures Wrap(r) == w
  {
    if w < 0x8000_0000 then w else w - 0x1_0000_0000
  }

  /** Subtracting wrapped clocks gives the wrapped difference. */
  lemma WrapDifference(x: int, y: int)
    ensures Wrap(Wrap(x) - Wrap(y)) == Wrap(x - y)
    ensures Wrap(x - Wrap(y)) == Wrap(x - y)
  {
    WrapShift(x - y, y / 0x1_0000_0000);
    WrapShift(x - y, y / 0x1_0000_0000 - x / 0x1_0000_0000);
  }

  lemma WrapShift(x: int, k: int)
    ensures Wrap(x + 0x1_0000_0000 * k) == Wrap(x)
  {
  }

  lemma WrapSum(x: int, y: int)
    ensures Wrap(Wrap(x) + y) == Wrap(x + y)
  {
    WrapShift(Wrap(x) + y, x / 0x1_0000_0000);
  }

  /** A difference that fits 32 signed bits survives wrapping. */
  lemma SignedIsExact(x: int)
    ensures Signed(Wrap(x)) == x <==> -0x8000_0000 <= x <= 0x7fff_ffff
  {
  }

  /** The low eight bits of an integer, as a Java `byte`. */
  function ToByte(x: int): Byte {
    var o := x % 0x100;
    if o < 0x80 then o else o - 0x100
  }

  /** `b & 0xFF`. */
  function ToOctet(b: Byte): Octet {
    if b < 0 then b + 0x100 else b
  }

  lemma OctetOfByte(x: int)
    ensures ToOctet(ToByte(x)) == x % 0x100
  {
  }

  lemma ByteOfOctet(b: Byte)
    ensures ToByte(ToOctet(b)) == b && ToByte(b) == b
  {
  }

  function Zeros(n: nat): (z: seq<Byte>)
    ensures |z| == n && forall i :: 0 <= i < n ==> z[i] == 0
  {
    seq(n, _ => 0)
  }
}
