/** Fixed-width integers and the few stock types the other modules share. */
module Words {

  type Byte = x: int | 0 <= x < 0x100
  type U16 = x: int | 0 <= x < 0x1_0000
  type U32 = x: int | 0 <= x < 0x1_0000_0000
  type Int32 = x: int | -0x8000_0000 <= x < 0x8000_0000

  const TWO32 := 0x1_0000_0000

  datatype Option<+T> = None | Some(value: T)

  /** A value reduced to an unsigned 32-bit word. */
  function Wrap32(x: int): U32 {
    x % TWO32
  }

  /** A value reduced to a signed 32-bit word (two's complement). */
  function Signed32(x: int): Int32 {
    var u := x % TWO32;
    if u < 0x8000_0000 then u else u - TWO32
  }

  /** C's integer division, which truncates toward zero. */
  function TruncDiv(x: int, d: int): int
    requires d > 0
  {
    if x >= 0 then x / d else -((-x) / d)
  }

  /** What is left over has the sign of what was divided. */
  lemma TruncDivLeaves(x: int, d: int)
    requires d > 0
    ensures x >= 0 ==> 0 <= x - TruncDiv(x, d) * d < d
    ensures x <= 0 ==> -d < x - TruncDiv(x, d) * d <= 0
  {
    if x >= 0 {
      assert x == x / d * d + x % d;
    } else {
      assert -x == -x / d * d + -x % d;
    }
  }

  /** Byte k of a word in big-endian order. */
  function ByteOfWord(w: U32, k: nat): Byte
    requires k < 4
  {
    match k
    case 0 => w / 0x100 / 0x100 / 0x100
    case 1 => w / 0x100 / 0x100 % 0x100
    case 2 => w / 0x100 % 0x100
    case _ => w % 0x100
  }

  function WordOfBytes(b0: Byte, b1: Byte, b2: Byte, b3: Byte): U32 {
    b0 as int * 0x100_0000 + b1 as int * 0x1_0000 + b2 as int * 0x100 + b3 as int
  }

  lemma WordThereAndBack(w: U32)
    ensures WordOfBytes(ByteOfWord(w, 0), ByteOfWord(w, 1), ByteOfWord(w, 2), ByteOfWord(w, 3)) == w
  {
    var a := w / 0x100;
    var b := a / 0x100;
    var c := b / 0x100;
    assert w == 0x100 * a + w % 0x100 && a == 0x100 * b + a % 0x100 && b == 0x100 * c + b % 0x100;
  }
}
