/** Examples of what goes on the wire, byte by byte. An encoder and a decoder that share a
    wrong constant agree with each other; they do not agree with these bytes. */
module WireLiterals {
  import opened Basics
  import opened Bytes
  import opened Images
  import opened Subrects
  import opened Rectangles
  import opened TightLevels
  import HextileFormat
  import Rre
  import TightData
  import TightFormat
  import TightRect
  import TightSplit
  import TightWays
  import UpdateBuffer
  import ZlibLines
  import ZrleRect

  /** A rectangle header ends in the number of its encoding: Raw, RRE, CoRRE, Hextile and
      Tight, and the marker after the last rectangle. */
  lemma Headers()
    ensures HeaderBytes(1, 2, 0x304, 5, ENCODING_RAW) == [0, 1, 0, 2, 3, 4, 0, 5, 0, 0, 0, 0]
    ensures HeaderBytes(1, 2, 0x304, 5, ENCODING_RRE) == [0, 1, 0, 2, 3, 4, 0, 5, 0, 0, 0, 2]
    ensures HeaderBytes(1, 2, 0x304, 5, ENCODING_CORRE) == [0, 1, 0, 2, 3, 4, 0, 5, 0, 0, 0, 4]
    ensures HeaderBytes(1, 2, 0x304, 5, ENCODING_HEXTILE) == [0, 1, 0, 2, 3, 4, 0, 5, 0, 0, 0, 5]
    ensures HeaderBytes(1, 2, 0x304, 5, TightRect.ENCODING_TIGHT) == [0, 1, 0, 2, 3, 4, 0, 5, 0, 0, 0, 7]
    ensures HeaderBytes(0, 0, 0, 0, ENCODING_LAST_RECT) == [0, 0, 0, 0, 0, 0, 0, 0, 0xFF, 0xFF, 0xFF, 0x20]
  {
  }

  /** Two-byte pixels, with their low byte first, as the memory of the server has them; one
      subrectangle in each of the two formats. */
  lemma SubrectBytes()
    ensures PixelBytes(0x1234, 2) == [0x34, 0x12]
    ensures Rre.SubBytes(Subrect(0x1234, 1, 2, 3, 4), Rre.RRE, 2) == [0x34, 0x12, 0, 1, 0, 2, 0, 3, 0, 4]
    ensures Rre.SubBytes(Subrect(0x1234, 1, 2, 3, 4), Rre.CoRRE, 2) == [0x34, 0x12, 1, 2, 3, 4]
  {
    assert PixelBytes(0x12, 1) == [0x12] + PixelBytes(0, 0);
    assert PixelBytes(0x1234, 2) == [0x34] + PixelBytes(0x12, 1);
  }

  lemma OneByte(v: Byte)
    ensures PixelBytes(v, 1) == [v]
  {
    assert PixelBytes(v / 256, 0) == [];
  }

  /** Hextile tiles with one-byte pixels: raw, all background, with subrectangles of one
      foreground, and with subrectangles that each have their colour. */
  lemma HextileTiles()
    ensures HextileFormat.TileBytes(HextileFormat.RawTile([[5]]), 1) == [1, 5]
    ensures HextileFormat.TileBytes(HextileFormat.PaintTile(Some(7), None, None, false), 1) == [2, 7]
    ensures var t := HextileFormat.PaintTile(None, None, None, false);
      HextileFormat.TileBytes(t, 1) == [0]
    ensures var t := HextileFormat.PaintTile(Some(7), Some(9), Some([Subrect(9, 1, 2, 3, 4)]), false);
      HextileFormat.Writable(t) && HextileFormat.TileBytes(t, 1) == [2 + 4 + 8, 7, 9, 1, 0x12, 0x23]
    ensures var t := HextileFormat.PaintTile(Some(7), None, Some([Subrect(9, 1, 2, 3, 4)]), true);
      HextileFormat.Writable(t) && HextileFormat.TileBytes(t, 1) == [2 + 8 + 16, 7, 1, 9, 0x12, 0x23]
  {
    OneByte(5);
    OneByte(7);
    OneByte(9);
    assert RowBytes([5], 1) == [5];
    assert RowsBytes([[5]], 1) == [5] + RowsBytes([], 1);
    var sub := Subrect(9, 1, 2, 3, 4);
    assert [sub][1..] == [];
    assert HextileFormat.AllSubBytes([sub], false, 1) == [0x12, 0x23];
    assert HextileFormat.AllSubBytes([sub], true, 1) == [9, 0x12, 0x23];
  }

  /** The first bytes of a Tight rectangle of two one-byte colours, the three forms of a
      length, and the numbers its control and filter bytes are made of. */
  lemma TightBytes(f: TightFormat.Format)
    requires TightFormat.IsFormat(f) && f.n == 1
    ensures TightWays.PaletteBytes(1, [7, 9], f) == [0x50, 1, 1, 7, 9]
    ensures TightData.CompactLength(0x7F) == [0x7F]
    ensures TightData.CompactLength(0x3FFF) == [0xFF, 0x7F]
    ensures TightData.CompactLength(0x12345) == [0xC5, 0xC6, 0x04]
    ensures TightFormat.FILL == 8 && TightFormat.EXPLICIT_FILTER == 4 && TightFormat.MIN_TO_COMPRESS == 12
    ensures TightFormat.FILTER_COPY == 0 && TightFormat.FILTER_PALETTE == 1 && TightFormat.FILTER_GRADIENT == 2
  {
    OneByte(7);
    OneByte(9);
    assert RowBytes([7, 9], 1) == [7] + RowBytes([9], 1) == [7] + ([9] + RowBytes([], 1));
  }

  /** How the columns of the table go from the lowest level to the highest. */
  lemma Levels()
    ensures forall k :: 0 <= k < 10 ==>
      TightConf(k).maxRectSize == [512, 2048, 6144, 10240, 16384, 32768, 65536, 65536, 65536, 65536][k]
    ensures forall k :: 0 <= k < 10 ==>
      TightConf(k).maxRectWidth == [32, 128, 256, 1024, 2048, 2048, 2048, 2048, 2048, 2048][k]
    ensures forall k :: 0 <= k < 10 ==> TightConf(k).monoMinRectSize == [6, 6, 8, 12, 12, 12, 16, 16, 32, 32][k]
    ensures forall k :: 0 <= k < 10 ==> TightConf(k).idxMaxColorsDivisor == [4, 8, 24, 32, 32, 32, 48, 64, 64, 96][k]
    ensures forall k :: 0 <= k < 10 ==> ZlibLevel(TightConf(k), 0) == [0, 1, 2, 3, 4, 5, 6, 7, 8, 9][k]
    ensures forall k :: 0 <= k < 10 ==> ZlibLevel(TightConf(k), 1) == [0, 1, 3, 5, 6, 7, 7, 8, 9, 9][k]
    ensures forall k :: 0 <= k < 10 ==> ZlibLevel(TightConf(k), 2) == [0, 1, 3, 5, 6, 7, 7, 8, 9, 9][k]
    ensures forall k :: 0 <= k < 10 ==> ZlibLevel(TightConf(k), 3) == [0, 0, 0, 0, 0, 4, 4, 5, 6, 6][k]
  {
  }

  /** The sizes that the encoders go by: tiles and areas of Tight, tiles of ZRLE, rectangles
      of Zlib, and the update buffer. */
  lemma Sizes()
    ensures TightSplit.MIN_SPLIT_RECT_SIZE == 4096 && TightSplit.MIN_SOLID_SUBRECT_SIZE == 2048
    ensures TightSplit.MAX_SPLIT_TILE_SIZE == 16 && ZrleRect.TILE == 64
    ensures ZlibLines.ZLIB_MAX_RECT_SIZE == 32768 && UpdateBuffer.UPDATE_BUF_SIZE == 30000
  {
  }
}
