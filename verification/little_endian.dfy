/**
 * Fixed-width little-endian integers, as Go's `binary.Write` and
 * `binary.Read` produce and consume them with `binary.LittleEndian`.
 */
module LittleEndian {
  import opened Words

  newtype Byte = b: int | 0 <= b < 0x100

  const WordSize: nat := 4
  const Int32Min: int := -0x8000_0000
  const Int32Max: int := 0x7FFF_FFFF

  predicate InInt32(x: int) {
    Int32Min <= x <= Int32Max
  }

  /** The four bytes of `w`, least significant first. */
  function WordBytes(w: Word): (bs: seq<Byte>)
    ensures |bs| == WordSize
  {
    var u := w as int;
    [(u % 0x100) as Byte, (u / 0x100 % 0x100) as Byte,
     (u / 0x100 / 0x100 % 0x100) as Byte, (u / 0x100 / 0x100 / 0x100) as Byte]
  }

  /** The word whose little-endian bytes are `bs`. */
  function WordOf(bs: seq<Byte>): Word
    requires |bs| == WordSize
  {
    (bs[0] as int + 0x100 * bs[1] as int + 0x1_0000 * bs[2] as int + 0x100_0000 * bs[3] as int) as Word
  }

  lemma WordRoundTrip(w: Word)
    ensures WordOf(WordBytes(w)) == w
  {
    var u := w as int;
    var q1 := u / 0x100;
    var q2 := q1 / 0x100;
    var q3 := q2 / 0x100;
    assert u == q1 * 0x100 + u % 0x100;
    assert q1 == q2 * 0x100 + q1 % 0x100;
    assert q2 == q3 * 0x100 + q2 % 0x100;
  }

  lemma BytesRoundTrip(bs: seq<Byte>)
    requires |bs| == WordSize
    ensures WordBytes(WordOf(bs)) == bs
  {
    var b0, b1, b2, b3 := bs[0] as int, bs[1] as int, bs[2] as int, bs[3] as int;
    var u := WordOf(bs) as int;
    SplitByte(u, b1 + 0x100 * b2 + 0x1_0000 * b3, b0);
    SplitByte(u / 0x100, b2 + 0x100 * b3, b1);
    SplitByte(u / 0x100 / 0x100, b3, b2);
  }

  /** Division by 256 splits off the low byte. */
  lemma SplitByte(x: int, high: int, low: int)
    requires 0 <= low < 0x100 && x == high * 0x100 + low
    ensures x / 0x100 == high && x % 0x100 == low
  {
  }

  /** Go's conversion `int32(x)`: the low 32 bits of `x`, as an unsigned word. */
  function Int32Word(x: int): (w: Word)
    ensures (w as int - x) % 0x1_0000_0000 == 0
    ensures InInt32(x) ==> (if x < 0 then w as int == x + 0x1_0000_0000 else w as int == x)
  {
    (x % 0x1_0000_0000) as Word
  }

  /** A word read as a two's-complement int32. */
  function SignedOf(w: Word): (x: int)
    ensures InInt32(x)
    ensures Int32Word(x) == w
  {
    if w >= 0x8000_0000 then w as int - 0x1_0000_0000 else w as int
  }

  /** The bytes `binary.Write` emits for `int32(x)`. */
  function Int32Bytes(x: int): (bs: seq<Byte>)
    ensures |bs| == WordSize
  {
    WordBytes(Int32Word(x))
  }

  /** The int32 `binary.Read` fills in from four bytes. */
  function Int32Of(bs: seq<Byte>): (x: int)
    requires |bs| == WordSize
    ensures InInt32(x)
    ensures Int32Bytes(x) == bs
  {
    BytesRoundTrip(bs);
    SignedOf(WordOf(bs))
  }

  /** An int32-range value survives writing and reading back. */
  lemma Int32RoundTrip(x: int)
    requires InInt32(x)
    ensures Int32Of(Int32Bytes(x)) == x
  {
    WordRoundTrip(Int32Word(x));
  }
}
