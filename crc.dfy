/** CRC-16 over the CCITT polynomial 0x1021, table driven, as both directions of the
    YtDataLink transport use it (lib/YtDataLink.js: `ccittTable`, `crcUpdate`,
    `crcSendUpdate`). Accumulators are `bv16`, so every value they take fits in 16 bits. */
module Crc16 {

  /** The 256-entry lookup table, as the source lists it: 32 lines of eight entries. */
  const CcittRows: seq<seq<bv16>> := [
    [0x0000, 0x1021, 0x2042, 0x3063, 0x4084, 0x50A5, 0x60C6, 0x70E7],
    [0x8108, 0x9129, 0xA14A, 0xB16B, 0xC18C, 0xD1AD, 0xE1CE, 0xF1EF],
    [0x1231, 0x0210, 0x3273, 0x2252, 0x52B5, 0x4294, 0x72F7, 0x62D6],
    [0x9339, 0x8318, 0xB37B, 0xA35A, 0xD3BD, 0xC39C, 0xF3FF, 0xE3DE],
    [0x2462, 0x3443, 0x0420, 0x1401, 0x64E6, 0x74C7, 0x44A4, 0x5485],
    [0xA56A, 0xB54B, 0x8528, 0x9509, 0xE5EE, 0xF5CF, 0xC5AC, 0xD58D],
    [0x3653, 0x2672, 0x1611, 0x0630, 0x76D7, 0x66F6, 0x5695, 0x46B4],
    [0xB75B, 0xA77A, 0x9719, 0x8738, 0xF7DF, 0xE7FE, 0xD79D, 0xC7BC],
    [0x48C4, 0x58E5, 0x6886, 0x78A7, 0x0840, 0x1861, 0x2802, 0x3823],
    [0xC9CC, 0xD9ED, 0xE98E, 0xF9AF, 0x8948, 0x9969, 0xA90A, 0xB92B],
    [0x5AF5, 0x4AD4, 0x7AB7, 0x6A96, 0x1A71, 0x0A50, 0x3A33, 0x2A12],
    [0xDBFD, 0xCBDC, 0xFBBF, 0xEB9E, 0x9B79, 0x8B58, 0xBB3B, 0xAB1A],
    [0x6CA6, 0x7C87, 0x4CE4, 0x5CC5, 0x2C22, 0x3C03, 0x0C60, 0x1C41],
    [0xEDAE, 0xFD8F, 0xCDEC, 0xDDCD, 0xAD2A, 0xBD0B, 0x8D68, 0x9D49],
    [0x7E97, 0x6EB6, 0x5ED5, 0x4EF4, 0x3E13, 0x2E32, 0x1E51, 0x0E70],
    [0xFF9F, 0xEFBE, 0xDFDD, 0xCFFC, 0xBF1B, 0xAF3A, 0x9F59, 0x8F78],
    [0x9188, 0x81A9, 0xB1CA, 0xA1EB, 0xD10C, 0xC12D, 0xF14E, 0xE16F],
    [0x1080, 0x00A1, 0x30C2, 0x20E3, 0x5004, 0x4025, 0x7046, 0x6067],
    [0x83B9, 0x9398, 0xA3FB, 0xB3DA, 0xC33D, 0xD31C, 0xE37F, 0xF35E],
    [0x02B1, 0x1290, 0x22F3, 0x32D2, 0x4235, 0x5214, 0x6277, 0x7256],
    [0xB5EA, 0xA5CB, 0x95A8, 0x8589, 0xF56E, 0xE54F, 0xD52C, 0xC50D],
    [0x34E2, 0x24C3, 0x14A0, 0x0481, 0x7466, 0x6447, 0x5424, 0x4405],
    [0xA7DB, 0xB7FA, 0x8799, 0x97B8, 0xE75F, 0xF77E, 0xC71D, 0xD73C],
    [0x26D3, 0x36F2, 0x0691, 0x16B0, 0x6657, 0x7676, 0x4615, 0x5634],
    [0xD94C, 0xC96D, 0xF90E, 0xE92F, 0x99C8, 0x89E9, 0xB98A, 0xA9AB],
    [0x5844, 0x4865, 0x7806, 0x6827, 0x18C0, 0x08E1, 0x3882, 0x28A3],
    [0xCB7D, 0xDB5C, 0xEB3F, 0xFB1E, 0x8BF9, 0x9BD8, 0xABBB, 0xBB9A],
    [0x4A75, 0x5A54, 0x6A37, 0x7A16, 0x0AF1, 0x1AD0, 0x2AB3, 0x3A92],
    [0xFD2E, 0xED0F, 0xDD6C, 0xCD4D, 0xBDAA, 0xAD8B, 0x9DE8, 0x8DC9],
    [0x7C26, 0x6C07, 0x5C64, 0x4C45, 0x3CA2, 0x2C83, 0x1CE0, 0x0CC1],
    [0xEF1F, 0xFF3E, 0xCF5D, 0xDF7C, 0xAF9B, 0xBFBA, 0x8FD9, 0x9FF8],
    [0x6E17, 0x7E36, 0x4E55, 0x5E74, 0x2E93, 0x3EB2, 0x0ED1, 0x1EF0]
  ]

  /** Entry `i` of the lookup table. */
  function CcittTable(i: bv8): (e: bv16)
    ensures e == TableEntry(i)
  {
    TableIsPolynomial(i);
    CcittRows[(i >> 3) as int][(i & 7) as int]
  }

  /** One bit of polynomial division: shift left, and subtract (xor) 0x1021 when the bit
      shifted out is set. `0 - (c >> 15)` is all ones exactly when that bit is set. */
  function Round(c: bv16): bv16 {
    (c << 1) ^ ((0 - (c >> 15)) & 0x1021)
  }

  /** The CRC-16 of the byte `i` under the polynomial 0x1021 with a zero accumulator: eight
      division steps of `i` placed in the high byte. This is what the table tabulates. */
  function TableEntry(i: bv8): bv16 {
    Round(Round(Round(Round(Round(Round(Round(Round((i as bv16) << 8))))))))
  }

  /** Value an accumulator is reset to when the first byte of a field is folded in. */
  const Seed: bv16 := 0xFFFF

  /** One table step, `table[((crc >> 8) ^ ch) & 0xff] ^ ((crc << 8) & 0xffff)`, with the
      table entry written as the division it tabulates (`CcittTable` proves them equal).
      The mask `& 0xffff` is the 16-bit width of `bv16`. */
  function CrcNext(crc: bv16, ch: bv8): bv16 {
    TableEntry((crc >> 8) as bv8 ^ ch) ^ (crc << 8)
  }

  /** `CrcNext` is the source's step: the table looked up at the index the source computes
      on the 16-bit accumulator, `((crc >> 8) ^ ch) & 0xff`. */
  lemma CrcNextIsTableStep(crc: bv16, ch: bv8)
    ensures CrcNext(crc, ch) == CcittTable((((crc >> 8) ^ ch as bv16) & 0xFF) as bv8) ^ (crc << 8)
  {
    assert (((crc >> 8) ^ ch as bv16) & 0xFF) as bv8 == (crc >> 8) as bv8 ^ ch;
  }

  /** Line `r` of the table holds the divisions of the bytes `8r` to `8r + 7`. */
  lemma Row0(j: bv8)
    requires j < 8
    ensures CcittRows[0][j as int] == TableEntry(0 + j)
  {
  }

  lemma Row1(j: bv8)
    requires j < 8
    ensures CcittRows[1][j as int] == TableEntry(8 + j)
  {
  }

  lemma Row2(j: bv8)
    requires j < 8
    ensures CcittRows[2][j as int] == TableEntry(16 + j)
  {
  }

  lemma Row3(j: bv8)
    requires j < 8
    ensures CcittRows[3][j as int] == TableEntry(24 + j)
  {
  }

  lemma Row4(j: bv8)
    requires j < 8
    ensures CcittRows[4][j as int] == TableEntry(32 + j)
  {
  }

  lemma Row5(j: bv8)
    requires j < 8
    ensures CcittRows[5][j as int] == TableEntry(40 + j)
  {
  }

  lemma Row6(j: bv8)
    requires j < 8
    ensures CcittRows[6][j as int] == TableEntry(48 + j)
  {
  }

  lemma Row7(j: bv8)
    requires j < 8
    ensures CcittRows[7][j as int] == TableEntry(56 + j)
  {
  }

  lemma Row8(j: bv8)
    requires j < 8
    ensures CcittRows[8][j as int] == TableEntry(64 + j)
  {
  }

  lemma Row9(j: bv8)
    requires j < 8
    ensures CcittRows[9][j as int] == TableEntry(72 + j)
  {
  }

  lemma Row10(j: bv8)
    requires j < 8
    ensures CcittRows[10][j as int] == TableEntry(80 + j)
  {
  }

  lemma Row11(j: bv8)
    requires j < 8
    ensures CcittRows[11][j as int] == TableEntry(88 + j)
  {
  }

  lemma Row12(j: bv8)
    requires j < 8
    ensures CcittRows[12][j as int] == TableEntry(96 + j)
  {
  }

  lemma Row13(j: bv8)
    requires j < 8
    ensures CcittRows[13][j as int] == TableEntry(104 + j)
  {
  }

  lemma Row14(j: bv8)
    requires j < 8
    ensures CcittRows[14][j as int] == TableEntry(112 + j)
  {
  }

  lemma Row15(j: bv8)
    requires j < 8
    ensures CcittRows[15][j as int] == TableEntry(120 + j)
  {
  }

  lemma Row16(j: bv8)
    requires j < 8
    ensures CcittRows[16][j as int] == TableEntry(128 + j)
  {
  }

  lemma Row17(j: bv8)
    requires j < 8
    ensures CcittRows[17][j as int] == TableEntry(136 + j)
  {
  }

  lemma Row18(j: bv8)
    requires j < 8
    ensures CcittRows[18][j as int] == TableEntry(144 + j)
  {
  }

  lemma Row19(j: bv8)
    requires j < 8
    ensures CcittRows[19][j as int] == TableEntry(152 + j)
  {
  }

  lemma Row20(j: bv8)
    requires j < 8
    ensures CcittRows[20][j as int] == TableEntry(160 + j)
  {
  }

  lemma Row21(j: bv8)
    requires j < 8
    ensures CcittRows[21][j as int] == TableEntry(168 + j)
  {
  }

  lemma Row22(j: bv8)
    requires j < 8
    ensures CcittRows[22][j as int] == TableEntry(176 + j)
  {
  }

  lemma Row23(j: bv8)
    requires j < 8
    ensures CcittRows[23][j as int] == TableEntry(184 + j)
  {
  }

  lemma Row24(j: bv8)
    requires j < 8
    ensures CcittRows[24][j as int] == TableEntry(192 + j)
  {
  }

  lemma Row25(j: bv8)
    requires j < 8
    ensures CcittRows[25][j as int] == TableEntry(200 + j)
  {
  }

  lemma Row26(j: bv8)
    requires j < 8
    ensures CcittRows[26][j as int] == TableEntry(208 + j)
  {
  }

  lemma Row27(j: bv8)
    requires j < 8
    ensures CcittRows[27][j as int] == TableEntry(216 + j)
  {
  }

  lemma Row28(j: bv8)
    requires j < 8
    ensures CcittRows[28][j as int] == TableEntry(224 + j)
  {
  }

  lemma Row29(j: bv8)
    requires j < 8
    ensures CcittRows[29][j as int] == TableEntry(232 + j)
  {
  }

  lemma Row30(j: bv8)
    requires j < 8
    ensures CcittRows[30][j as int] == TableEntry(240 + j)
  {
  }

  lemma Row31(j: bv8)
    requires j < 8
    ensures CcittRows[31][j as int] == TableEntry(248 + j)
  {
  }

  lemma RowsLow(r: bv8, j: bv8)
    requires r < 16 && j < 8
    ensures CcittRows[r as int][j as int] == TableEntry(r * 8 + j)
  {
    if r == 0 {
      Row0(j);
    } else if r == 1 {
      Row1(j);
    } else if r == 2 {
      Row2(j);
    } else if r == 3 {
      Row3(j);
    } else if r == 4 {
      Row4(j);
    } else if r == 5 {
      Row5(j);
    } else if r == 6 {
      Row6(j);
    } else if r == 7 {
      Row7(j);
    } else if r == 8 {
      Row8(j);
    } else if r == 9 {
      Row9(j);
    } else if r == 10 {
      Row10(j);
    } else if r == 11 {
      Row11(j);
    } else if r == 12 {
      Row12(j);
    } else if r == 13 {
      Row13(j);
    } else if r == 14 {
      Row14(j);
    } else {
      Row15(j);
    }
  }

  lemma RowsHigh(r: bv8, j: bv8)
    requires 16 <= r < 32 && j < 8
    ensures CcittRows[r as int][j as int] == TableEntry(r * 8 + j)
  {
    if r == 16 {
      Row16(j);
    } else if r == 17 {
      Row17(j);
    } else if r == 18 {
      Row18(j);
    } else if r == 19 {
      Row19(j);
    } else if r == 20 {
      Row20(j);
    } else if r == 21 {
      Row21(j);
    } else if r == 22 {
      Row22(j);
    } else if r == 23 {
      Row23(j);
    } else if r == 24 {
      Row24(j);
    } else if r == 25 {
      Row25(j);
    } else if r == 26 {
      Row26(j);
    } else if r == 27 {
      Row27(j);
    } else if r == 28 {
      Row28(j);
    } else if r == 29 {
      Row29(j);
    } else if r == 30 {
      Row30(j);
    } else {
      Row31(j);
    }
  }

  /** Every entry of the source's table is the CRC-16 division of its index. */
  lemma TableIsPolynomial(i: bv8)
    ensures |CcittRows| == 32 && |CcittRows[(i >> 3) as int]| == 8
    ensures CcittRows[(i >> 3) as int][(i & 7) as int] == TableEntry(i)
  {
    var r, j := i >> 3, i & 7;
    assert i == r * 8 + j;
    if r < 16 {
      RowsLow(r, j);
    } else {
      RowsHigh(r, j);
    }
  }

  /** Left fold of `CrcNext` over a byte sequence, starting from the accumulator `crc`. */
  function CrcFold(crc: bv16, s: seq<bv8>): bv16
    decreases |s|
  {
    if s == [] then crc else CrcFold(CrcNext(crc, s[0]), s[1..])
  }

  /** CRC of a whole field: the fold started from the seed. */
  function Crc(s: seq<bv8>): bv16 {
    CrcFold(Seed, s)
  }

  /** `crcUpdate(ch, first)` / `crcSendUpdate(ch, first)` on an accumulator value: the first
      byte of a field restarts from the seed, any other byte continues the running CRC. */
  function CrcStep(crc: bv16, ch: bv8, first: bool): bv16 {
    CrcNext(if first then Seed else crc, ch)
  }

  /** Folding over a concatenation folds over the first part, then over the second. */
  lemma {:induction false} CrcFoldAppend(crc: bv16, a: seq<bv8>, b: seq<bv8>)
    ensures CrcFold(crc, a + b) == CrcFold(CrcFold(crc, a), b)
    decreases |a|
  {
    if a == [] {
      assert a + b == b;
    } else {
      assert (a + b)[0] == a[0];
      assert (a + b)[1..] == a[1..] + b;
      CrcFoldAppend(CrcNext(crc, a[0]), a[1..], b);
    }
  }

  /** The way both directions use the step: with `first` set exactly on the field's first
      byte, and the accumulator holding the CRC of the bytes seen so far otherwise, one
      more step yields the CRC of the field extended by that byte. */
  lemma CrcExtend(seen: seq<bv8>, acc: bv16, ch: bv8)
    requires seen != [] ==> acc == Crc(seen)
    ensures CrcStep(acc, ch, seen == []) == Crc(seen + [ch])
  {
    if seen == [] {
      assert seen + [ch] == [ch] && [ch][1..] == [];
      assert CrcFold(Seed, [ch]) == CrcFold(CrcNext(Seed, ch), []);
    } else {
      assert [ch][1..] == [];
      assert CrcFold(acc, [ch]) == CrcFold(CrcNext(acc, ch), []);
      CrcFoldAppend(Seed, seen, [ch]);
    }
  }
}
