/** Fixed-width words and their encodings, in either byte order.
    Words are integers in range; a cast that truncates is written `%`. */
module Words {
  type u8 = x: int | 0 <= x < 0x100
  type u16 = x: int | 0 <= x < 0x1_0000
  type u32 = x: int | 0 <= x < 0x1_0000_0000
  type u64 = x: int | 0 <= x < 0x1_0000_0000_0000_0000

  type i64 = x: int | -0x8000_0000_0000_0000 <= x < 0x8000_0000_0000_0000

  const MAX_I64: i64 := 0x7fff_ffff_ffff_ffff
  const TWO_16 := 0x1_0000
  const TWO_32 := 0x1_0000_0000
  const TWO_64 := 0x1_0000_0000_0000_0000

  /** The two bytes of a word: least significant first, or last when `swapped`. */
  function Bytes16(value: u16, swapped: bool): (bytes: seq<u8>)
    ensures |bytes| == 2
  {
    if swapped then [value / 0x100, value % 0x100] else [value % 0x100, value / 0x100]
  }

  function Bytes32(value: u32, swapped: bool): (bytes: seq<u8>)
    ensures |bytes| == 4
  {
    if swapped then Bytes16(value / TWO_16, true) + Bytes16(value % TWO_16, true)
    else Bytes16(value % TWO_16, false) + Bytes16(value / TWO_16, false)
  }

  lemma Bytes32Flat(value: u32)
    ensures Bytes32(value, false)
         == [value % 0x100, value / 0x100 % 0x100, value / 0x1_0000 % 0x100, value / 0x100_0000]
  {
    var high, low := value / TWO_16, value % TWO_16;
    assert value == high * TWO_16 + low;
    assert low % 0x100 == value % 0x100 && low / 0x100 == value / 0x100 % 0x100;
    assert high / 0x100 == value / 0x100_0000;
  }

  function Join16(a: u8, b: u8, swapped: bool): u16 {
    if swapped then a * 0x100 + b else b * 0x100 + a
  }

  function ReadU16(data: seq<u8>, at: nat, swapped: bool): u16
    requires at + 2 <= |data|
  {
    Join16(data[at], data[at + 1], swapped)
  }

  function ReadU32(data: seq<u8>, at: nat, swapped: bool): u32
    requires at + 4 <= |data|
  {
    var first := ReadU16(data, at, swapped);
    var second := ReadU16(data, at + 2, swapped);
    if swapped then first * TWO_16 + second else second * TWO_16 + first
  }

  /** `run` stands in `data` at `at`. */
  predicate At(data: seq<u8>, at: nat, run: seq<u8>)
    ensures At(data, at, run) ==> at + |run| <= |data|
  {
    at + |run| <= |data| && data[at..at + |run|] == run
  }

  lemma Split(data: seq<u8>, at: nat, a: seq<u8>, b: seq<u8>)
    requires At(data, at, a + b)
    ensures At(data, at, a) && At(data, at + |a|, b)
  {
    var both := data[at..at + |a + b|];
    assert both[..|a|] == a && both[|a|..] == b;
    assert data[at..at + |a|] == both[..|a|];
    assert data[at + |a|..at + |a| + |b|] == both[|a|..];
  }

  /** Reading is the inverse of writing, wherever in a buffer the word stands. */
  lemma Read16(data: seq<u8>, at: nat, value: u16, swapped: bool)
    requires At(data, at, Bytes16(value, swapped))
    ensures ReadU16(data, at, swapped) == value
  {
    var run := data[at..at + 2];
    assert run[0] == data[at] && run[1] == data[at + 1];
  }

  lemma Read32(data: seq<u8>, at: nat, value: u32, swapped: bool)
    requires At(data, at, Bytes32(value, swapped))
    ensures ReadU32(data, at, swapped) == value
  {
    var high, low := value / TWO_16, value % TWO_16;
    var first, second := if swapped then high else low, if swapped then low else high;
    Split(data, at, Bytes16(first, swapped), Bytes16(second, swapped));
    Read16(data, at, first, swapped);
    Read16(data, at + 2, second, swapped);
  }
}
