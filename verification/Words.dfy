/** Machine words and their byte order. */
module Words {
  const WORD := 0x1_0000_0000

  type u8 = x: int | 0 <= x < 0x100
  type u16 = x: int | 0 <= x < 0x1_0000
  type u32 = x: int | 0 <= x < WORD

  type Bytes = seq<u8>

  function Be32(x: u32): (s: Bytes)
    ensures |s| == 4 && FromBe32(s) == x
  {
    var a := x / 0x100;
    var b := a / 0x100;
    [b / 0x100, b % 0x100, a % 0x100, x % 0x100]
  }

  function FromBe32(s: Bytes): (x: u32)
    requires |s| == 4
  {
    (s[0] as int) * 0x100_0000 + (s[1] as int) * 0x1_0000 + (s[2] as int) * 0x100 + s[3]
  }

  function Le32(x: u32): (s: Bytes)
    ensures |s| == 4 && FromLe32(s) == x
  {
    var a := x / 0x100;
    var b := a / 0x100;
    [x % 0x100, a % 0x100, b % 0x100, b / 0x100]
  }

  function FromLe32(s: Bytes): (x: u32)
    requires |s| == 4
  {
    (s[0] as int) + (s[1] as int) * 0x100 + (s[2] as int) * 0x1_0000 + (s[3] as int) * 0x100_0000
  }

  function Be16(x: u16): (s: Bytes)
    ensures |s| == 2 && FromBe16(s) == x
  {
    [x / 0x100, x % 0x100]
  }

  function FromBe16(s: Bytes): (x: u16)
    requires |s| == 2
  {
    (s[0] as int) * 0x100 + s[1]
  }

  function Le16(x: u16): (s: Bytes)
    ensures |s| == 2 && FromLe16(s) == x
  {
    [x % 0x100, x / 0x100]
  }

  function FromLe16(s: Bytes): (x: u16)
    requires |s| == 2
  {
    (s[0] as int) + (s[1] as int) * 0x100
  }

  /** The first byte is the low one in little endian order, and the last one in big endian order. */
  lemma ByteOrder(b: u8)
    ensures Le32(b) == [b, 0, 0, 0] && Be32(b) == [0, 0, 0, b] && Le16(b) == [b, 0] && Be16(b) == [0, b]
    ensures Le32(0x100 * b) == [0, b, 0, 0] && Be32(0x100 * b) == [0, 0, b, 0]
    ensures Le32(0x1_0000 * b) == [0, 0, b, 0] && Be32(0x1_0000 * b) == [0, b, 0, 0]
    ensures Le16(0x100 * b) == [0, b] && Be16(0x100 * b) == [b, 0]
  {
  }

  function Zeros(n: nat): (s: Bytes)
    ensures |s| == n && forall i :: 0 <= i < n ==> s[i] == 0
  {
    seq(n, _ => 0)
  }

  /** s with the bytes from `at` on overwritten by data. */
  function Splice(s: Bytes, at: nat, data: Bytes): (r: Bytes)
    requires at + |data| <= |s|
    ensures |r| == |s|
  {
    s[..at] + data + s[at + |data|..]
  }

  function Xor(a: u8, b: u8): (r: u8) {
    ((a as bv8) ^ (b as bv8)) as int
  }
}
