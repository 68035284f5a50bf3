/**
 * CRC-32 by table lookup (src/crc32.c:45-103).
 */
module Crc32 {
  import opened CrcRegister

  const ROW0: seq<bv32> := [
    0x00000000, 0x77073096, 0xee0e612c, 0x990951ba, 0x076dc419, 0x706af48f, 0xe963a535, 0x9e6495a3,
    0x0edb8832, 0x79dcb8a4, 0xe0d5e91e, 0x97d2d988, 0x09b64c2b, 0x7eb17cbd, 0xe7b82d07, 0x90bf1d91
  ]
  const ROW1: seq<bv32> := [
    0x1db71064, 0x6ab020f2, 0xf3b97148, 0x84be41de, 0x1adad47d, 0x6ddde4eb, 0xf4d4b551, 0x83d385c7,
    0x136c9856, 0x646ba8c0, 0xfd62f97a, 0x8a65c9ec, 0x14015c4f, 0x63066cd9, 0xfa0f3d63, 0x8d080df5
  ]
  const ROW2: seq<bv32> := [
    0x3b6e20c8, 0x4c69105e, 0xd56041e4, 0xa2677172, 0x3c03e4d1, 0x4b04d447, 0xd20d85fd, 0xa50ab56b,
    0x35b5a8fa, 0x42b2986c, 0xdbbbc9d6, 0xacbcf940, 0x32d86ce3, 0x45df5c75, 0xdcd60dcf, 0xabd13d59
  ]
  const ROW3: seq<bv32> := [
    0x26d930ac, 0x51de003a, 0xc8d75180, 0xbfd06116, 0x21b4f4b5, 0x56b3c423, 0xcfba9599, 0xb8bda50f,
    0x2802b89e, 0x5f058808, 0xc60cd9b2, 0xb10be924, 0x2f6f7c87, 0x58684c11, 0xc1611dab, 0xb6662d3d
  ]
  const ROW4: seq<bv32> := [
    0x76dc4190, 0x01db7106, 0x98d220bc, 0xefd5102a, 0x71b18589, 0x06b6b51f, 0x9fbfe4a5, 0xe8b8d433,
    0x7807c9a2, 0x0f00f934, 0x9609a88e, 0xe10e9818, 0x7f6a0dbb, 0x086d3d2d, 0x91646c97, 0xe6635c01
  ]
  const ROW5: seq<bv32> := [
    0x6b6b51f4, 0x1c6c6162, 0x856530d8, 0xf262004e, 0x6c0695ed, 0x1b01a57b, 0x8208f4c1, 0xf50fc457,
    0x65b0d9c6, 0x12b7e950, 0x8bbeb8ea, 0xfcb9887c, 0x62dd1ddf, 0x15da2d49, 0x8cd37cf3, 0xfbd44c65
  ]
  const ROW6: seq<bv32> := [
    0x4db26158, 0x3ab551ce, 0xa3bc0074, 0xd4bb30e2, 0x4adfa541, 0x3dd895d7, 0xa4d1c46d, 0xd3d6f4fb,
    0x4369e96a, 0x346ed9fc, 0xad678846, 0xda60b8d0, 0x44042d73, 0x33031de5, 0xaa0a4c5f, 0xdd0d7cc9
  ]
  const ROW7: seq<bv32> := [
    0x5005713c, 0x270241aa, 0xbe0b1010, 0xc90c2086, 0x5768b525, 0x206f85b3, 0xb966d409, 0xce61e49f,
    0x5edef90e, 0x29d9c998, 0xb0d09822, 0xc7d7a8b4, 0x59b33d17, 0x2eb40d81, 0xb7bd5c3b, 0xc0ba6cad
  ]
  const ROW8: seq<bv32> := [
    0xedb88320, 0x9abfb3b6, 0x03b6e20c, 0x74b1d29a, 0xead54739, 0x9dd277af, 0x04db2615, 0x73dc1683,
    0xe3630b12, 0x94643b84, 0x0d6d6a3e, 0x7a6a5aa8, 0xe40ecf0b, 0x9309ff9d, 0x0a00ae27, 0x7d079eb1
  ]
  const ROW9: seq<bv32> := [
    0xf00f9344, 0x8708a3d2, 0x1e01f268, 0x6906c2fe, 0xf762575d, 0x806567cb, 0x196c3671, 0x6e6b06e7,
    0xfed41b76, 0x89d32be0, 0x10da7a5a, 0x67dd4acc, 0xf9b9df6f, 0x8ebeeff9, 0x17b7be43, 0x60b08ed5
  ]
  const ROWA: seq<bv32> := [
    0xd6d6a3e8, 0xa1d1937e, 0x38d8c2c4, 0x4fdff252, 0xd1bb67f1, 0xa6bc5767, 0x3fb506dd, 0x48b2364b,
    0xd80d2bda, 0xaf0a1b4c, 0x36034af6, 0x41047a60, 0xdf60efc3, 0xa867df55, 0x316e8eef, 0x4669be79
  ]
  const ROWB: seq<bv32> := [
    0xcb61b38c, 0xbc66831a, 0x256fd2a0, 0x5268e236, 0xcc0c7795, 0xbb0b4703, 0x220216b9, 0x5505262f,
    0xc5ba3bbe, 0xb2bd0b28, 0x2bb45a92, 0x5cb36a04, 0xc2d7ffa7, 0xb5d0cf31, 0x2cd99e8b, 0x5bdeae1d
  ]
  const ROWC: seq<bv32> := [
    0x9b64c2b0, 0xec63f226, 0x756aa39c, 0x026d930a, 0x9c0906a9, 0xeb0e363f, 0x72076785, 0x05005713,
    0x95bf4a82, 0xe2b87a14, 0x7bb12bae, 0x0cb61b38, 0x92d28e9b, 0xe5d5be0d, 0x7cdcefb7, 0x0bdbdf21
  ]
  const ROWD: seq<bv32> := [
    0x86d3d2d4, 0xf1d4e242, 0x68ddb3f8, 0x1fda836e, 0x81be16cd, 0xf6b9265b, 0x6fb077e1, 0x18b74777,
    0x88085ae6, 0xff0f6a70, 0x66063bca, 0x11010b5c, 0x8f659eff, 0xf862ae69, 0x616bffd3, 0x166ccf45
  ]
  const ROWE: seq<bv32> := [
    0xa00ae278, 0xd70dd2ee, 0x4e048354, 0x3903b3c2, 0xa7672661, 0xd06016f7, 0x4969474d, 0x3e6e77db,
    0xaed16a4a, 0xd9d65adc, 0x40df0b66, 0x37d83bf0, 0xa9bcae53, 0xdebb9ec5, 0x47b2cf7f, 0x30b5ffe9
  ]
  const ROWF: seq<bv32> := [
    0xbdbdf21c, 0xcabac28a, 0x53b39330, 0x24b4a3a6, 0xbad03605, 0xcdd70693, 0x54de5729, 0x23d967bf,
    0xb3667a2e, 0xc4614ab8, 0x5d681b02, 0x2a6f2b94, 0xb40bbe37, 0xc30c8ea1, 0x5a05df1b, 0x2d02ef8d
  ]

  /** crc32_tab, sixteen entries a row */
  const TABLE: seq<seq<bv32>> := [
    ROW0, ROW1, ROW2, ROW3, ROW4, ROW5, ROW6, ROW7, ROW8, ROW9, ROWA, ROWB, ROWC, ROWD, ROWE, ROWF
  ]

  /** crc32_tab[x] */
  function Tab(x: Byte): bv32 {
    Entry((x >> 4) as int, (x & 0xF) as int)
  }

  function Entry(i: int, j: int): bv32 {
    if 0 <= i < 16 && 0 <= j < |TABLE[i]| then TABLE[i][j] else 0
  }

  /** The shift is linear over xor, so the entries of a row differ from those of row 0 by a constant. */
  predicate RowIs(row: seq<bv32>, hi: bv32) {
    |row| == 16 && row[0] == Step8(hi) && FourAre(row, ROW0, 0) && FourAre(row, ROW0, 4)
    && FourAre(row, ROW0, 8) && FourAre(row, ROW0, 12)
  }

  predicate FourAre(row: seq<bv32>, first: seq<bv32>, j: nat)
    requires |row| == |first| == 16 && j <= 12
  {
    && row[j] == Xor(row[0], first[j]) && row[j + 1] == Xor(row[0], first[j + 1])
    && row[j + 2] == Xor(row[0], first[j + 2]) && row[j + 3] == Xor(row[0], first[j + 3])
  }

  // The entries at the powers of two; the shift is linear, so the others are their sums.

  lemma Row0At0()
    ensures Step8(0) == 0
  {
  }

  lemma Row0At1()
    ensures Step8(1) == 0x77073096
  {
    assert Step(0x1) == 0xedb88320;
    assert Step(0xedb88320) == 0x76dc4190;
    assert Step(0x76dc4190) == 0x3b6e20c8;
    assert Step(0x3b6e20c8) == 0x1db71064;
    assert Step(0x1db71064) == 0xedb8832;
    assert Step(0xedb8832) == 0x76dc419;
    assert Step(0x76dc419) == 0xee0e612c;
  }

  lemma Row0At2()
    ensures Step8(2) == 0xee0e612c
  {
    assert Step(0x2) == 0x1;
    assert Step(0x1) == 0xedb88320;
    assert Step(0xedb88320) == 0x76dc4190;
    assert Step(0x76dc4190) == 0x3b6e20c8;
    assert Step(0x3b6e20c8) == 0x1db71064;
    assert Step(0x1db71064) == 0xedb8832;
    assert Step(0xedb8832) == 0x76dc419;
  }

  lemma Row0At4()
    ensures Step8(4) == 0x076dc419
  {
    assert Step(0x4) == 0x2;
    assert Step(0x2) == 0x1;
    assert Step(0x1) == 0xedb88320;
    assert Step(0xedb88320) == 0x76dc4190;
    assert Step(0x76dc4190) == 0x3b6e20c8;
    assert Step(0x3b6e20c8) == 0x1db71064;
    assert Step(0x1db71064) == 0xedb8832;
  }

  lemma Row0At8()
    ensures Step8(8) == 0x0edb8832
  {
    assert Step(0x8) == 0x4;
    assert Step(0x4) == 0x2;
    assert Step(0x2) == 0x1;
    assert Step(0x1) == 0xedb88320;
    assert Step(0xedb88320) == 0x76dc4190;
    assert Step(0x76dc4190) == 0x3b6e20c8;
    assert Step(0x3b6e20c8) == 0x1db71064;
  }

  /** The first row, entry by entry. */
  lemma Row0Serial(j: Byte)
    requires j < 16
    ensures Entry(0, j as int) == Step8(j as bv32)
  {
    hide Step8;
    Nibble(j);
    assert TABLE[0] == ROW0;
    Row0At0();
    Row0At1();
    Row0At2();
    Row0At4();
    Row0At8();
    Step8Linear(1, 2);
    Step8Linear(4, 1);
    Step8Linear(4, 2);
    Step8Linear(4, 3);
    Step8Linear(8, 1);
    Step8Linear(8, 2);
    Step8Linear(8, 3);
    Step8Linear(8, 4);
    Step8Linear(8, 5);
    Step8Linear(8, 6);
    Step8Linear(8, 7);
  }

  lemma Row0Is()
    ensures RowIs(ROW0, 0x00)
  {
  }

  lemma Row1Is()
    ensures RowIs(ROW1, 0x10)
  {
  }

  lemma Row2Is()
    ensures RowIs(ROW2, 0x20)
  {
  }

  lemma Row3Is()
    ensures RowIs(ROW3, 0x30)
  {
  }

  lemma Row4Is()
    ensures RowIs(ROW4, 0x40)
  {
  }

  lemma Row5Is()
    ensures RowIs(ROW5, 0x50)
  {
  }

  lemma Row6Is()
    ensures RowIs(ROW6, 0x60)
  {
  }

  lemma Row7Is()
    ensures RowIs(ROW7, 0x70)
  {
  }

  lemma Row8Is()
    ensures RowIs(ROW8, 0x80)
  {
  }

  lemma Row9Is()
    ensures RowIs(ROW9, 0x90)
  {
  }

  lemma RowAIs()
    ensures RowIs(ROWA, 0xA0)
  {
  }

  lemma RowBIs()
    ensures RowIs(ROWB, 0xB0)
  {
  }

  lemma RowCIs()
    ensures RowIs(ROWC, 0xC0)
  {
  }

  lemma RowDIs()
    ensures RowIs(ROWD, 0xD0)
  {
  }

  lemma RowEIs()
    ensures RowIs(ROWE, 0xE0)
  {
  }

  lemma RowFIs()
    ensures RowIs(ROWF, 0xF0)
  {
  }

  lemma OneOfFour(row: seq<bv32>, first: seq<bv32>, j: nat, k: nat)
    requires |row| == |first| == 16 && j <= 12 && FourAre(row, first, j) && j <= k < j + 4
    ensures row[k] == Xor(row[0], first[k])
  {
    hide Xor;
  }

  /** One entry of a row. */
  lemma RowEntry(row: seq<bv32>, hi: bv32, i: int, k: int, lo: bv32)
    requires RowIs(row, hi) && 0 <= i < 16 && TABLE[i] == row
    requires 0 <= k < 16 && ROW0[k] == Step8(lo)
    ensures Entry(i, k) == Step8(Xor(hi, lo))
  {
    hide Step8, FourAre, Xor;
    OneOfFour(row, ROW0, k / 4 * 4, k);
    Step8Linear(hi, lo);
  }

  lemma Nibble(j: Byte)
    requires j < 16
    ensures 0 <= j as int < 16
    ensures j as int == 0 ==> j == 0
    ensures j as int == 1 ==> j == 1
    ensures j as int == 2 ==> j == 2
    ensures j as int == 3 ==> j == 3
    ensures j as int == 4 ==> j == 4
    ensures j as int == 5 ==> j == 5
    ensures j as int == 6 ==> j == 6
    ensures j as int == 7 ==> j == 7
    ensures j as int == 8 ==> j == 8
    ensures j as int == 9 ==> j == 9
    ensures j as int == 10 ==> j == 10
    ensures j as int == 11 ==> j == 11
    ensures j as int == 12 ==> j == 12
    ensures j as int == 13 ==> j == 13
    ensures j as int == 14 ==> j == 14
    ensures j as int == 15 ==> j == 15
  {
  }

  /** The table comment holds: every entry is the result of eight shift/xor operations on its index. */
  lemma TableEntry(x: Byte)
    ensures Tab(x) == Step8(x as bv32)
  {
    hide Step8, RowIs, FourAre, Entry;
    var i, j := x >> 4, x & 0xF;
    Nibble(i);
    Nibble(j);
    Row0Entry(j);
    var k, lo := j as int, j as bv32;
    if i == 0x0 {
      Row0Is();
      RowEntry(ROW0, 0x00, 0, k, lo);
    } else if i == 0x1 {
      Row1Is();
      RowEntry(ROW1, 0x10, 1, k, lo);
    } else if i == 0x2 {
      Row2Is();
      RowEntry(ROW2, 0x20, 2, k, lo);
    } else if i == 0x3 {
      Row3Is();
      RowEntry(ROW3, 0x30, 3, k, lo);
    } else if i == 0x4 {
      Row4Is();
      RowEntry(ROW4, 0x40, 4, k, lo);
    } else if i == 0x5 {
      Row5Is();
      RowEntry(ROW5, 0x50, 5, k, lo);
    } else if i == 0x6 {
      Row6Is();
      RowEntry(ROW6, 0x60, 6, k, lo);
    } else if i == 0x7 {
      Row7Is();
      RowEntry(ROW7, 0x70, 7, k, lo);
    } else if i == 0x8 {
      Row8Is();
      RowEntry(ROW8, 0x80, 8, k, lo);
    } else if i == 0x9 {
      Row9Is();
      RowEntry(ROW9, 0x90, 9, k, lo);
    } else if i == 0xA {
      RowAIs();
      RowEntry(ROWA, 0xA0, 10, k, lo);
    } else if i == 0xB {
      RowBIs();
      RowEntry(ROWB, 0xB0, 11, k, lo);
    } else if i == 0xC {
      RowCIs();
      RowEntry(ROWC, 0xC0, 12, k, lo);
    } else if i == 0xD {
      RowDIs();
      RowEntry(ROWD, 0xD0, 13, k, lo);
    } else if i == 0xE {
      RowEIs();
      RowEntry(ROWE, 0xE0, 14, k, lo);
    } else if i == 0xF {
      RowFIs();
      RowEntry(ROWF, 0xF0, 15, k, lo);
    }
    Joined(x);
  }

  lemma Row0Entry(j: Byte)
    requires j < 16
    ensures 0 <= j as int < 16 && ROW0[j as int] == Step8(j as bv32)
  {
    hide Step8;
    Nibble(j);
    Row0Serial(j);
    assert TABLE[0] == ROW0;
  }

  lemma Joined(x: Byte)
    ensures Xor((x >> 4) as bv32 << 4, (x & 0xF) as bv32) == x as bv32
  {
  }

  /** The body of the loop: crc32_tab[(crc ^ b) & 0xFF] ^ (crc >> 8). */
  function Update(crc: bv32, b: Byte): bv32 {
    Xor(Tab(LowByte(Xor(crc, b as bv32))), Shr(crc, 8))
  }

  /** A value without its lowest byte. */
  function HighBytes(x: bv32): bv32 {
    x & 0xFFFFFF00
  }

  lemma SplitByte(x: bv32)
    ensures x == Xor(LowByte(x) as bv32, HighBytes(x)) && HighBytes(x) & 0xFF == 0
  {
  }

  lemma HighShift(crc: bv32, b: Byte)
    ensures Shr(HighBytes(Xor(crc, b as bv32)), 8) == Shr(crc, 8)
  {
  }

  /** One table lookup does what the bit-serial register does on the eight bits of the byte. */
  lemma UpdateIsSerial(crc: bv32, b: Byte)
    ensures Update(crc, b) == SerialByte(crc, b)
  {
    hide Tab, SerialByte, Step8, LowByte, HighBytes, Xor, Shr;
    var x := Xor(crc, b as bv32);
    SplitByte(x);
    TableEntry(LowByte(x));
    Step8Linear(LowByte(x) as bv32, HighBytes(x));
    Step8High(HighBytes(x));
    HighShift(crc, b);
    SerialIsStep8(crc, b);
  }

  const ONES: bv32 := 0xFFFFFFFF

  /** CRC-32 of a message, continued from the value crc. */
  function Crc(crc: bv32, message: seq<Byte>): bv32 {
    Xor(Serial(Xor(crc, ONES), message), ONES)
  }

  /** crc32: the loop over the buffer computes the bit-serial CRC. */
  method ComputeCrc32(crc: bv32, buf: seq<Byte>) returns (r: bv32)
    ensures r == Crc(crc, buf)
  {
    hide Update, SerialByte, Xor;
    r := Xor(crc, ONES);
    var p: nat := 0;
    var size: nat := |buf|;
    while size > 0
      invariant p + size == |buf|
      invariant Serial(r, buf[p..]) == Serial(Xor(crc, ONES), buf)
    {
      size := size - 1;
      UpdateIsSerial(r, buf[p]);
      assert buf[p..][1..] == buf[p + 1..];
      r := Update(r, buf[p]);
      p := p + 1;
    }
    r := Xor(r, ONES);
  }

  /** The CRC can be computed piece by piece. */
  lemma Continue(crc: bv32, a: seq<Byte>, b: seq<Byte>)
    ensures Crc(Crc(crc, a), b) == Crc(crc, a + b)
  {
    hide Serial, Xor;
    var r := Serial(Xor(crc, ONES), a);
    XorLaws(r, ONES, ONES);
    XorLaws(ONES, 0, 0);
    XorLaws(r, 0, 0);
    SerialAppend(Xor(crc, ONES), a, b);
  }

  /** For a fixed message the CRC is an injective function of the start value. */
  lemma CrcInjective(c: bv32, d: bv32, message: seq<Byte>)
    requires Crc(c, message) == Crc(d, message)
    ensures c == d
  {
    hide Serial, Xor;
    XorSame(Serial(Xor(c, ONES), message), Serial(Xor(d, ONES), message), ONES);
    SerialInjective(Xor(c, ONES), Xor(d, ONES), message);
    XorSame(c, d, ONES);
  }

  /** Messages that differ in one piece of at most four bytes have different CRCs. */
  lemma BurstPieces(crc: bv32, a: seq<Byte>, v: seq<Byte>, w: seq<Byte>, z: seq<Byte>)
    requires |v| == |w| <= 4 && v != w
    ensures Crc(crc, a + v + z) != Crc(crc, a + w + z)
  {
    hide Serial, Xor;
    if Crc(crc, a + v + z) == Crc(crc, a + w + z) {
      var start := Xor(crc, ONES);
      var r := Serial(start, a);
      XorSame(Serial(start, a + v + z), Serial(start, a + w + z), ONES);
      SerialAppend(start, a + v, z);
      SerialAppend(start, a + w, z);
      SerialAppend(start, a, v);
      SerialAppend(start, a, w);
      SerialInjective(Serial(r, v), Serial(r, w), z);
      WindowInjective(r, v, w);
    }
  }

  /** Two messages of one length that differ only within four consecutive bytes have different CRCs. */
  lemma BurstDetected(crc: bv32, m: seq<Byte>, n: seq<Byte>, k: nat)
    requires |m| == |n| && m != n && k <= |m|
    requires forall i | 0 <= i < |m| && !(k <= i < k + 4) :: m[i] == n[i]
    ensures Crc(crc, m) != Crc(crc, n)
  {
    hide Crc;
    var e := if k + 4 <= |m| then k + 4 else |m|;
    assert m == m[..k] + m[k..e] + m[e..] && n == n[..k] + n[k..e] + n[e..];
    assert m[..k] == n[..k] && m[e..] == n[e..];
    BurstPieces(crc, m[..k], m[k..e], n[k..e], m[e..]);
  }

  // ---- the check value of the polynomial ----

  lemma OneByte(r: bv32, message: seq<Byte>, k: nat)
    requires k < |message|
    ensures Serial(r, message[k..]) == Serial(Update(r, message[k]), message[k + 1..])
  {
    hide Update, SerialByte;
    UpdateIsSerial(r, message[k]);
    assert message[k..][1..] == message[k + 1..];
  }

  lemma SerialNothing(r: bv32)
    ensures Serial(r, []) == r
  {
  }

  // "123456789"
  const NINE_DIGITS: seq<Byte> := [0x31, 0x32, 0x33, 0x34, 0x35, 0x36, 0x37, 0x38, 0x39]

  lemma CheckStep0()
    ensures Update(0xffffffff, 0x31) == 0x7c231048
  {
    assert ROWC[14] == 0x7cdcefb7;
  }

  lemma CheckStep1()
    ensures Update(0x7c231048, 0x32) == 0xb0acbb32
  {
    assert ROW7[10] == 0xb0d09822;
  }

  lemma CheckStep2()
    ensures Update(0xb0acbb32, 0x33) == 0x77b79c2d
  {
    assert ROW0[1] == 0x77073096;
  }

  lemma CheckStep3()
    ensures Update(0x77b79c2d, 0x34) == 0x641c1f5c
  {
    assert ROW1[9] == 0x646ba8c0;
  }

  lemma CheckStep4()
    ensures Update(0x641c1f5c, 0x35) == 0x340ac5e3
  {
    assert ROW6[9] == 0x346ed9fc;
  }

  lemma CheckStep5()
    ensures Update(0x340ac5e3, 0x36) == 0xf68d2c9e
  {
    assert ROWD[5] == 0xf6b9265b;
  }

  lemma CheckStep6()
    ensures Update(0xf68d2c9e, 0x37) == 0xaffc9660
  {
    assert ROWA[9] == 0xaf0a1b4c;
  }

  lemma CheckStep7()
    ensures Update(0xaffc9660, 0x38) == 0x651f2550
  {
    assert ROW5[8] == 0x65b0d9c6;
  }

  lemma CheckStep8()
    ensures Update(0x651f2550, 0x39) == 0x340bc6d9
  {
    assert ROW6[9] == 0x346ed9fc;
  }

  lemma CheckRegister()
    ensures Serial(0xffffffff, NINE_DIGITS) == 0x340bc6d9
  {
    hide Update, SerialByte, Serial;
    assert NINE_DIGITS[0..] == NINE_DIGITS;
    CheckStep0();
    OneByte(0xffffffff, NINE_DIGITS, 0);
    CheckStep1();
    OneByte(0x7c231048, NINE_DIGITS, 1);
    CheckStep2();
    OneByte(0xb0acbb32, NINE_DIGITS, 2);
    CheckStep3();
    OneByte(0x77b79c2d, NINE_DIGITS, 3);
    CheckStep4();
    OneByte(0x641c1f5c, NINE_DIGITS, 4);
    CheckStep5();
    OneByte(0x340ac5e3, NINE_DIGITS, 5);
    CheckStep6();
    OneByte(0xf68d2c9e, NINE_DIGITS, 6);
    CheckStep7();
    OneByte(0xaffc9660, NINE_DIGITS, 7);
    CheckStep8();
    OneByte(0x651f2550, NINE_DIGITS, 8);
    assert NINE_DIGITS[9..] == [];
    SerialNothing(0x340bc6d9);
  }

  /** The CRC of the nine digits, which every implementation of this CRC is checked against. */
  lemma CheckValue()
    ensures Crc(0, NINE_DIGITS) == 0xCBF43926
  {
    hide Serial;
    CheckRegister();
  }
}
