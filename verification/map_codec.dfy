/**
 * The binary map file of the map generator (server/map_generator.go):
 * three little-endian int32 header fields (width, height, maxVal) followed
 * by the cells in row-major order, four bytes each. Cells are float32
 * values kept as opaque words.
 */
module MapCodec {
  import opened Wrappers
  import opened Words
  import opened Float32Bits
  import opened LittleEndian

  /** Go's MapData: declared dimensions, the value bound, and the rows of cells. */
  datatype MapData = MapData(width: int, height: int, maxVal: int, data: seq<seq<Float32>>)

  /** Why a byte string is not a map file. */
  datatype DecodeError =
    | Truncated         // a header field or a cell ran past the end of the input
    | NegativeLength    // `make` was asked for a negative length (a panic in Go)

  const HeaderSize: nat := 12
  const CellSize: nat := 4

  /** Number of cells the nested save and load loops visit, counted row by row. */
  function CellCount(width: int, height: int): nat
    decreases height
  {
    if width <= 0 || height <= 0 then 0 else width + CellCount(width, height - 1)
  }

  /** The loops visit width * height cells, or none when a dimension is not positive. */
  lemma {:induction false} CellCountIsProduct(width: int, height: int)
    ensures CellCount(width, height) == if width <= 0 || height <= 0 then 0 else width * height
    decreases height
  {
    if width > 0 && height > 1 {
      CellCountIsProduct(width, height - 1);
      assert width * height == width + width * (height - 1);
    }
  }

  /** A map whose header fits int32 and whose rows have exactly the declared shape. */
  predicate WellFormed(m: MapData) {
    && InInt32(m.width) && InInt32(m.height) && InInt32(m.maxVal)
    && m.height >= 0
    && |m.data| == m.height
    && forall y | 0 <= y < |m.data| :: |m.data[y]| == m.width
  }

  /** The save loops index `Data[y][x]` for every y < height, x < width without going out of range. */
  predicate Writable(m: MapData) {
    m.width <= 0 || m.height <= 0 ||
    (|m.data| >= m.height && forall y | 0 <= y < m.height :: |m.data[y]| >= m.width)
  }

  lemma WellFormedIsWritable(m: MapData)
    requires WellFormed(m)
    ensures Writable(m)
  {
  }

  /** `make` in the load path accepts these lengths: no negative height, and no negative width once a row is built. */
  predicate LengthsAccepted(width: int, height: int) {
    height >= 0 && (height > 0 ==> width >= 0)
  }

  // ---------------------------------------------------------------- encoding

  function EncodeRow(row: seq<Float32>): (bs: seq<Byte>)
    ensures |bs| == CellSize * |row|
  {
    if row == [] then [] else WordBytes(row[0]) + EncodeRow(row[1..])
  }

  function EncodeRows(rows: seq<seq<Float32>>): seq<Byte> {
    if rows == [] then [] else EncodeRow(rows[0]) + EncodeRows(rows[1..])
  }

  /** The cells the save loops visit, row by row. */
  function VisitedRows(m: MapData): (rows: seq<seq<Float32>>)
    requires Writable(m)
    ensures forall y | 0 <= y < |rows| :: |rows[y]| == m.width
    ensures |rows| == if CellCount(m.width, m.height) == 0 then 0 else m.height
  {
    if m.width <= 0 || m.height <= 0 then []
    else seq(m.height, y requires 0 <= y < m.height => m.data[y][..m.width])
  }

  /** The bytes SaveToFile writes for `m`. */
  function Encode(m: MapData): (bs: seq<Byte>)
    requires Writable(m)
    ensures |bs| == HeaderSize + CellSize * CellCount(m.width, m.height)
    ensures bs[0..4] == Int32Bytes(m.width)
    ensures bs[4..8] == Int32Bytes(m.height)
    ensures bs[8..12] == Int32Bytes(m.maxVal)
  {
    var rows := VisitedRows(m);
    EncodeRowsLength(rows, m.width);
    Int32Bytes(m.width) + Int32Bytes(m.height) + Int32Bytes(m.maxVal) + EncodeRows(rows)
  }

  /** After the header come the visited rows' cells. */
  lemma EncodeCells(m: MapData)
    requires Writable(m)
    ensures Encode(m)[HeaderSize..] == EncodeRows(VisitedRows(m))
  {
    var header := Int32Bytes(m.width) + Int32Bytes(m.height) + Int32Bytes(m.maxVal);
    assert |header| == HeaderSize;
    assert Encode(m) == header + EncodeRows(VisitedRows(m));
  }

  lemma {:induction false} EncodeRowsLength(rows: seq<seq<Float32>>, w: int)
    requires forall y | 0 <= y < |rows| :: |rows[y]| == w
    ensures |EncodeRows(rows)| == CellSize * CellCount(w, |rows|)
  {
    if rows != [] {
      EncodeRowsLength(rows[1..], w);
      assert w * |rows| == w + w * (|rows| - 1);
    }
  }

  // ---------------------------------------------------------------- decoding

  /** Reads `w` cells from the front of `bs`, one word at a time. */
  function ReadRow(bs: seq<Byte>, w: nat): (r: Option<seq<Float32>>)
    ensures r.Some? <==> |bs| >= CellSize * w
    ensures r.Some? ==> |r.value| == w
  {
    if w == 0 then Some([])
    else if |bs| < CellSize then None
    else match ReadRow(bs[CellSize..], w - 1)
      case None => None
      case Some(rest) => Some([WordOf(bs[..CellSize])] + rest)
  }

  /** Bytes taken by `h` rows of `w` cells, counted row by row. */
  function RowsSize(w: nat, h: nat): nat {
    if h == 0 then 0 else CellSize * w + RowsSize(w, h - 1)
  }

  lemma {:induction false} RowsSizeIsCells(w: nat, h: nat)
    ensures RowsSize(w, h) == CellSize * CellCount(w, h)
  {
    if h > 0 {
      RowsSizeIsCells(w, h - 1);
    }
  }

  /** Reads `h` rows of `w` cells from the front of `bs`. */
  function ReadRows(bs: seq<Byte>, w: nat, h: nat): (r: Option<seq<seq<Float32>>>)
    ensures r.Some? <==> |bs| >= RowsSize(w, h)
    ensures r.Some? ==> |r.value| == h && forall y | 0 <= y < h :: |r.value[y]| == w
  {
    if h == 0 then Some([])
    else
      match ReadRow(bs, w)
      case None => None
      case Some(row) =>
        match ReadRows(bs[CellSize * w..], w, h - 1)
        case None => None
        case Some(rest) => Some([row] + rest)
  }

  function HeaderWidth(bs: seq<Byte>): int
    requires |bs| >= HeaderSize
  {
    Int32Of(bs[0..4])
  }

  function HeaderHeight(bs: seq<Byte>): int
    requires |bs| >= HeaderSize
  {
    Int32Of(bs[4..8])
  }

  function HeaderMaxVal(bs: seq<Byte>): int
    requires |bs| >= HeaderSize
  {
    Int32Of(bs[8..12])
  }

  /**
   * What LoadMapFromFile makes of a file's bytes: the header, then exactly
   * width * height cells. Bytes after the last cell are never looked at.
   */
  function Decode(bs: seq<Byte>): (r: Result<MapData, DecodeError>)
    ensures r.Success? ==> WellFormed(r.value)
    ensures r.Success? ==>
      && |bs| >= HeaderSize
      && r.value.width == HeaderWidth(bs)
      && r.value.height == HeaderHeight(bs)
      && r.value.maxVal == HeaderMaxVal(bs)
    ensures r == Failure(NegativeLength) <==>
      |bs| >= HeaderSize && !LengthsAccepted(HeaderWidth(bs), HeaderHeight(bs))
    ensures r == Failure(Truncated) <==>
      || |bs| < HeaderSize
      || (&& LengthsAccepted(HeaderWidth(bs), HeaderHeight(bs))
          && |bs| < HeaderSize + CellSize * CellCount(HeaderWidth(bs), HeaderHeight(bs)))
  {
    if |bs| < HeaderSize then Failure(Truncated)
    else
      var width, height, maxVal := HeaderWidth(bs), HeaderHeight(bs), HeaderMaxVal(bs);
      if !LengthsAccepted(width, height) then Failure(NegativeLength)
      else
        var w: nat := if width < 0 then 0 else width;
        RowsSizeIsCells(w, height);
        assert CellCount(width, height) == CellCount(w, height);
        match ReadRows(bs[HeaderSize..], w, height)
        case None => Failure(Truncated)
        case Some(rows) => Success(MapData(width, height, maxVal, rows))
  }

  // ---------------------------------------------------------------- properties

  lemma {:induction false} ReadRowOfEncoding(row: seq<Float32>, rest: seq<Byte>)
    ensures ReadRow(EncodeRow(row) + rest, |row|) == Some(row)
  {
    if row != [] {
      var bs := EncodeRow(row) + rest;
      assert bs[..CellSize] == WordBytes(row[0]);
      assert bs[CellSize..] == EncodeRow(row[1..]) + rest;
      ReadRowOfEncoding(row[1..], rest);
      WordRoundTrip(row[0]);
      assert [row[0]] + row[1..] == row;
    }
  }

  lemma {:induction false} ReadRowsOfEncoding(rows: seq<seq<Float32>>, w: nat, rest: seq<Byte>)
    requires forall y | 0 <= y < |rows| :: |rows[y]| == w
    ensures ReadRows(EncodeRows(rows) + rest, w, |rows|) == Some(rows)
  {
    if rows != [] {
      var bs := EncodeRows(rows) + rest;
      assert bs == EncodeRow(rows[0]) + (EncodeRows(rows[1..]) + rest);
      ReadRowOfEncoding(rows[0], EncodeRows(rows[1..]) + rest);
      assert bs[CellSize * w..] == EncodeRows(rows[1..]) + rest;
      ReadRowsOfEncoding(rows[1..], w, rest);
      assert [rows[0]] + rows[1..] == rows;
    }
  }

  /**
   * Loading what was saved gives back the same map: width, height, maxVal and
   * every cell, whatever bytes follow the encoding.
   */
  lemma RoundTrip(m: MapData, rest: seq<Byte>)
    requires WellFormed(m)
    ensures Decode(Encode(m) + rest) == Success(m)
  {
    var w: nat := if m.width < 0 then 0 else m.width;
    HeaderOfEncoding(m, rest);
    CellsOfEncoding(m, rest);
    ReadRowsOfEncoding(m.data, w, rest);
    if m.height > 0 {
      assert |m.data[0]| == m.width;
    }
  }

  /** The header of a saved file reads back as the map's header. */
  lemma HeaderOfEncoding(m: MapData, rest: seq<Byte>)
    requires WellFormed(m)
    ensures |Encode(m) + rest| >= HeaderSize
    ensures HeaderWidth(Encode(m) + rest) == m.width
    ensures HeaderHeight(Encode(m) + rest) == m.height
    ensures HeaderMaxVal(Encode(m) + rest) == m.maxVal
  {
    WellFormedIsWritable(m);
    var bs := Encode(m) + rest;
    assert bs[0..4] == Int32Bytes(m.width);
    assert bs[4..8] == Int32Bytes(m.height);
    assert bs[8..12] == Int32Bytes(m.maxVal);
    Int32RoundTrip(m.width);
    Int32RoundTrip(m.height);
    Int32RoundTrip(m.maxVal);
  }

  /** After the header of a well-formed map come the encodings of all its rows. */
  lemma CellsOfEncoding(m: MapData, rest: seq<Byte>)
    requires WellFormed(m)
    ensures (Encode(m) + rest)[HeaderSize..] == EncodeRows(m.data) + rest
  {
    WellFormedIsWritable(m);
    var rows := VisitedRows(m);
    EncodeCells(m);
    if m.width > 0 && m.height > 0 {
      assert rows == m.data by {
        forall y | 0 <= y < m.height ensures rows[y] == m.data[y] {
          assert m.data[y][..m.width] == m.data[y];
        }
      }
    } else {
      var w: nat := if m.width < 0 then 0 else m.width;
      if m.height > 0 {
        assert |m.data[0]| == m.width;
      }
      EncodeRowsLength(m.data, w);
      assert EncodeRows(m.data) == [] == EncodeRows(rows);
    }
    assert (Encode(m) + rest)[HeaderSize..] == Encode(m)[HeaderSize..] + rest;
  }

  /** Round trip without trailing bytes: Decode(Encode(m)) == Success(m). */
  lemma DecodeEncode(m: MapData)
    requires WellFormed(m)
    ensures Decode(Encode(m)) == Success(m)
  {
    RoundTrip(m, []);
    assert Encode(m) + [] == Encode(m);
  }

  /** Encoding what was decoded reproduces the bytes that were read. */
  lemma EncodeDecode(bs: seq<Byte>)
    requires Decode(bs).Success?
    ensures Encode(Decode(bs).value) == bs[..HeaderSize + CellSize * CellCount(HeaderWidth(bs), HeaderHeight(bs))]
  {
    var m := Decode(bs).value;
    WellFormedIsWritable(m);
    var w: nat := if m.width < 0 then 0 else m.width;
    var e := Encode(m);
    RowsSizeIsCells(w, m.height);
    var cells := RowsSize(w, m.height);
    assert |e| == HeaderSize + cells;
    assert ReadRows(bs[HeaderSize..], w, m.height) == Some(m.data);
    ReadRowsEncode(bs[HeaderSize..], w, m.height);
    CellsOfEncoding(m, []);
    assert e + [] == e && EncodeRows(m.data) + [] == EncodeRows(m.data);
    assert e[HeaderSize..] == bs[HeaderSize..][..cells];
    HeaderBytesOfDecode(bs);
    assert bs[..|e|] == bs[..HeaderSize] + bs[HeaderSize..][..cells];
    assert e == e[..HeaderSize] + e[HeaderSize..];
  }

  /** The header a decoded map encodes to is the header that was read. */
  lemma HeaderBytesOfDecode(bs: seq<Byte>)
    requires Decode(bs).Success?
    ensures |Encode(Decode(bs).value)| >= HeaderSize
    ensures Encode(Decode(bs).value)[..HeaderSize] == bs[..HeaderSize]
  {
    var m := Decode(bs).value;
    WellFormedIsWritable(m);
    var e := Encode(m);
    assert bs[..HeaderSize] == bs[0..4] + bs[4..8] + bs[8..12];
    assert e[..HeaderSize] == e[0..4] + e[4..8] + e[8..12];
  }

  /** Two inputs that read the same rows agree on the bytes those rows came from. */
  lemma ReadRowsUnique(bs: seq<Byte>, enc: seq<Byte>, w: nat, h: nat)
    requires ReadRows(bs, w, h).Some? && ReadRows(enc, w, h) == ReadRows(bs, w, h)
    ensures |bs| >= RowsSize(w, h) && |enc| >= RowsSize(w, h)
    ensures bs[..RowsSize(w, h)] == enc[..RowsSize(w, h)]
  {
    ReadRowsEncode(bs, w, h);
    ReadRowsEncode(enc, w, h);
  }

  /** The bytes rows were read from are those rows' encoding. */
  lemma {:induction false} ReadRowsEncode(bs: seq<Byte>, w: nat, h: nat)
    requires ReadRows(bs, w, h).Some?
    ensures RowsSize(w, h) <= |bs|
    ensures bs[..RowsSize(w, h)] == EncodeRows(ReadRows(bs, w, h).value)
  {
    if h > 0 {
      var k := CellSize * w;
      var n1 := RowsSize(w, h - 1);
      var rows := ReadRows(bs, w, h).value;
      ReadRowsCons(bs, w, h);
      ReadRowEncodes(bs, w);
      ReadRowsEncode(bs[k..], w, h - 1);
      assert EncodeRows(rows) == EncodeRow(rows[0]) + EncodeRows(rows[1..]);
      PrefixSplit(bs, k, n1);
    }
  }

  /** A successful read of h > 0 rows is a read of one row, then of h - 1 rows after it. */
  lemma ReadRowsCons(bs: seq<Byte>, w: nat, h: nat)
    requires h > 0 && ReadRows(bs, w, h).Some?
    ensures ReadRow(bs, w).Some? && |bs| >= CellSize * w
    ensures ReadRows(bs[CellSize * w..], w, h - 1).Some?
    ensures ReadRow(bs, w).value == ReadRows(bs, w, h).value[0]
    ensures ReadRows(bs[CellSize * w..], w, h - 1).value == ReadRows(bs, w, h).value[1..]
  {
  }

  lemma PrefixSplit<T>(s: seq<T>, k: nat, n: nat)
    requires k + n <= |s|
    ensures s[..k + n] == s[..k] + s[k..][..n]
  {
  }

  /** The bytes a row was read from are that row's encoding. */
  lemma {:induction false} ReadRowEncodes(bs: seq<Byte>, w: nat)
    requires ReadRow(bs, w).Some?
    ensures CellSize * w <= |bs|
    ensures bs[..CellSize * w] == EncodeRow(ReadRow(bs, w).value)
  {
    if w > 0 {
      var row := ReadRow(bs, w).value;
      var tail := bs[CellSize..];
      ReadRowEncodes(tail, w - 1);
      BytesRoundTrip(bs[..CellSize]);
      assert row[0] == WordOf(bs[..CellSize]);
      assert row[1..] == ReadRow(tail, w - 1).value;
      PrefixSplit(bs, CellSize, CellSize * (w - 1));
    }
  }

  /**
   * Decoding never looks past the last cell: appending bytes to an input
   * changes nothing unless the input was too short to begin with.
   */
  lemma TrailingBytesIgnored(bs: seq<Byte>, extra: seq<Byte>)
    requires Decode(bs) != Failure(Truncated)
    ensures Decode(bs + extra) == Decode(bs)
  {
    if Decode(bs).Success? {
      DecodedPrefixDecides(bs, extra);
    } else {
      var bx := bs + extra;
      assert bx[0..4] == bs[0..4] && bx[4..8] == bs[4..8] && bx[8..12] == bs[8..12];
    }
  }

  lemma DecodedPrefixDecides(bs: seq<Byte>, extra: seq<Byte>)
    requires Decode(bs).Success?
    ensures Decode(bs + extra) == Decode(bs)
  {
    var m := Decode(bs).value;
    WellFormedIsWritable(m);
    EncodeDecode(bs);
    var n := |Encode(m)|;
    assert bs + extra == Encode(m) + (bs[n..] + extra);
    RoundTrip(m, bs[n..] + extra);
  }

  /**
   * A save that stopped part-way leaves a file the loader rejects as
   * truncated: no proper prefix of an encoding decodes.
   */
  lemma PartialWriteRejected(m: MapData, n: nat)
    requires WellFormed(m)
    requires n < |Encode(m)|
    ensures Decode(Encode(m)[..n]) == Failure(Truncated)
  {
    var e := Encode(m);
    if n >= HeaderSize {
      var p := e[..n];
      assert p[0..4] == e[0..4] && p[4..8] == e[4..8] && p[8..12] == e[8..12];
      Int32RoundTrip(m.width);
      Int32RoundTrip(m.height);
      if m.height > 0 {
        assert |m.data[0]| == m.width;
      }
    }
  }

  lemma {:induction false} EncodeRowAt(row: seq<Float32>, x: nat)
    requires x < |row|
    ensures EncodeRow(row)[CellSize * x..CellSize * x + CellSize] == WordBytes(row[x])
  {
    if x > 0 {
      EncodeRowAt(row[1..], x - 1);
      assert EncodeRow(row)[CellSize * x..CellSize * x + CellSize]
          == EncodeRow(row[1..])[CellSize * (x - 1)..CellSize * (x - 1) + CellSize];
    }
  }

  /** Cell (y, x) of equal-length rows sits after y whole rows and x cells. */
  lemma {:induction false} EncodeRowsAt(rows: seq<seq<Float32>>, w: nat, y: nat, x: nat)
    requires forall i | 0 <= i < |rows| :: |rows[i]| == w
    requires y < |rows| && x < w
    ensures RowsSize(w, y) + CellSize * x + CellSize <= |EncodeRows(rows)|
    ensures EncodeRows(rows)[RowsSize(w, y) + CellSize * x..RowsSize(w, y) + CellSize * x + CellSize]
         == WordBytes(rows[y][x])
  {
    var head := EncodeRow(rows[0]);
    var tail := EncodeRows(rows[1..]);
    assert EncodeRows(rows) == head + tail;
    if y == 0 {
      EncodeRowAt(rows[0], x);
    } else {
      EncodeRowsAt(rows[1..], w, y - 1, x);
      assert rows[1..][y - 1] == rows[y];
      var k' := RowsSize(w, y - 1) + CellSize * x;
      assert |head| == CellSize * w;
      assert RowsSize(w, y) + CellSize * x == |head| + k';
      SliceOfConcat(head, tail, k', k' + CellSize);
    }
  }

  lemma SliceOfConcat<T>(a: seq<T>, b: seq<T>, i: nat, j: nat)
    requires i <= j <= |b|
    ensures (a + b)[|a| + i..|a| + j] == b[i..j]
  {
  }

  /** The row-major offset y * w + x cells is y whole rows and x cells. */
  lemma RowMajorOffset(w: nat, y: nat, x: nat, k: nat)
    requires k == CellSize * (y * w + x)
    ensures k == RowsSize(w, y) + CellSize * x
  {
    RowsSizeIsCells(w, y);
    CellCountIsProduct(w, y);
    assert y * w == w * y;
  }

  /**
   * Row-major layout: cell (y, x) occupies the four bytes at offset
   * 12 + 4 * (y * width + x) of the saved file; `k` names 4 * (y * width + x).
   */
  lemma CellLayout(m: MapData, y: nat, x: nat, k: nat)
    requires Writable(m)
    requires y < m.height && x < m.width
    requires k == CellSize * (y * m.width + x)
    ensures HeaderSize + k + CellSize <= |Encode(m)|
    ensures Encode(m)[HeaderSize + k..HeaderSize + k + CellSize] == WordBytes(m.data[y][x])
  {
    var rows := VisitedRows(m);
    var w: nat := m.width;
    var e := Encode(m);
    RowMajorOffset(w, y, x, k);
    EncodeCells(m);
    assert rows[y][x] == m.data[y][x];
    EncodeRowsAt(rows, w, y, x);
    assert e[HeaderSize + k..HeaderSize + k + CellSize] == e[HeaderSize..][k..k + CellSize];
  }

}
