/** The checksums of ngx_crc32.h, with the tables of ngx_crc32.c, and the checksum of a file in backend/parser.py. */
module Crc32 {

  const POLYNOMIAL: bv32 := 0xEDB88320
  const ONES: bv32 := 0xFFFFFFFF

  const TABLE16: seq<bv32> := [
    0x00000000, 0x1db71064, 0x3b6e20c8, 0x26d930ac, 0x76dc4190, 0x6b6b51f4, 0x4db26158, 0x5005713c,
    0xedb88320, 0xf00f9344, 0xd6d6a3e8, 0xcb61b38c, 0x9b64c2b0, 0x86d3d2d4, 0xa00ae278, 0xbdbdf21c
  ]

  datatype Option<T> = None | Some(value: T)

  /** ngx_crc32_table256, 16 words in a row. */
  function Row(h: bv32): (r: seq<bv32>)
    ensures |r| == 16
  {
    if h == 0 then
      [0x00000000, 0x77073096, 0xee0e612c, 0x990951ba, 0x076dc419, 0x706af48f, 0xe963a535, 0x9e6495a3,
       0x0edb8832, 0x79dcb8a4, 0xe0d5e91e, 0x97d2d988, 0x09b64c2b, 0x7eb17cbd, 0xe7b82d07, 0x90bf1d91]
    else if h == 1 then
      [0x1db71064, 0x6ab020f2, 0xf3b97148, 0x84be41de, 0x1adad47d, 0x6ddde4eb, 0xf4d4b551, 0x83d385c7,
       0x136c9856, 0x646ba8c0, 0xfd62f97a, 0x8a65c9ec, 0x14015c4f, 0x63066cd9, 0xfa0f3d63, 0x8d080df5]
    else if h == 2 then
      [0x3b6e20c8, 0x4c69105e, 0xd56041e4, 0xa2677172, 0x3c03e4d1, 0x4b04d447, 0xd20d85fd, 0xa50ab56b,
       0x35b5a8fa, 0x42b2986c, 0xdbbbc9d6, 0xacbcf940, 0x32d86ce3, 0x45df5c75, 0xdcd60dcf, 0xabd13d59]
    else if h == 3 then
      [0x26d930ac, 0x51de003a, 0xc8d75180, 0xbfd06116, 0x21b4f4b5, 0x56b3c423, 0xcfba9599, 0xb8bda50f,
       0x2802b89e, 0x5f058808, 0xc60cd9b2, 0xb10be924, 0x2f6f7c87, 0x58684c11, 0xc1611dab, 0xb6662d3d]
    else if h == 4 then
      [0x76dc4190, 0x01db7106, 0x98d220bc, 0xefd5102a, 0x71b18589, 0x06b6b51f, 0x9fbfe4a5, 0xe8b8d433,
       0x7807c9a2, 0x0f00f934, 0x9609a88e, 0xe10e9818, 0x7f6a0dbb, 0x086d3d2d, 0x91646c97, 0xe6635c01]
    else if h == 5 then
      [0x6b6b51f4, 0x1c6c6162, 0x856530d8, 0xf262004e, 0x6c0695ed, 0x1b01a57b, 0x8208f4c1, 0xf50fc457,
       0x65b0d9c6, 0x12b7e950, 0x8bbeb8ea, 0xfcb9887c, 0x62dd1ddf, 0x15da2d49, 0x8cd37cf3, 0xfbd44c65]
    else if h == 6 then
      [0x4db26158, 0x3ab551ce, 0xa3bc0074, 0xd4bb30e2, 0x4adfa541, 0x3dd895d7, 0xa4d1c46d, 0xd3d6f4fb,
       0x4369e96a, 0x346ed9fc, 0xad678846, 0xda60b8d0, 0x44042d73, 0x33031de5, 0xaa0a4c5f, 0xdd0d7cc9]
    else if h == 7 then
      [0x5005713c, 0x270241aa, 0xbe0b1010, 0xc90c2086, 0x5768b525, 0x206f85b3, 0xb966d409, 0xce61e49f,
       0x5edef90e, 0x29d9c998, 0xb0d09822, 0xc7d7a8b4, 0x59b33d17, 0x2eb40d81, 0xb7bd5c3b, 0xc0ba6cad]
    else if h == 8 then
      [0xedb88320, 0x9abfb3b6, 0x03b6e20c, 0x74b1d29a, 0xead54739, 0x9dd277af, 0x04db2615, 0x73dc1683,
       0xe3630b12, 0x94643b84, 0x0d6d6a3e, 0x7a6a5aa8, 0xe40ecf0b, 0x9309ff9d, 0x0a00ae27, 0x7d079eb1]
    else if h == 9 then
      [0xf00f9344, 0x8708a3d2, 0x1e01f268, 0x6906c2fe, 0xf762575d, 0x806567cb, 0x196c3671, 0x6e6b06e7,
       0xfed41b76, 0x89d32be0, 0x10da7a5a, 0x67dd4acc, 0xf9b9df6f, 0x8ebeeff9, 0x17b7be43, 0x60b08ed5]
    else if h == 10 then
      [0xd6d6a3e8, 0xa1d1937e, 0x38d8c2c4, 0x4fdff252, 0xd1bb67f1, 0xa6bc5767, 0x3fb506dd, 0x48b2364b,
       0xd80d2bda, 0xaf0a1b4c, 0x36034af6, 0x41047a60, 0xdf60efc3, 0xa867df55, 0x316e8eef, 0x4669be79]
    else if h == 11 then
      [0xcb61b38c, 0xbc66831a, 0x256fd2a0, 0x5268e236, 0xcc0c7795, 0xbb0b4703, 0x220216b9, 0x5505262f,
       0xc5ba3bbe, 0xb2bd0b28, 0x2bb45a92, 0x5cb36a04, 0xc2d7ffa7, 0xb5d0cf31, 0x2cd99e8b, 0x5bdeae1d]
    else if h == 12 then
      [0x9b64c2b0, 0xec63f226, 0x756aa39c, 0x026d930a, 0x9c0906a9, 0xeb0e363f, 0x72076785, 0x05005713,
       0x95bf4a82, 0xe2b87a14, 0x7bb12bae, 0x0cb61b38, 0x92d28e9b, 0xe5d5be0d, 0x7cdcefb7, 0x0bdbdf21]
    else if h == 13 then
      [0x86d3d2d4, 0xf1d4e242, 0x68ddb3f8, 0x1fda836e, 0x81be16cd, 0xf6b9265b, 0x6fb077e1, 0x18b74777,
       0x88085ae6, 0xff0f6a70, 0x66063bca, 0x11010b5c, 0x8f659eff, 0xf862ae69, 0x616bffd3, 0x166ccf45]
    else if h == 14 then
      [0xa00ae278, 0xd70dd2ee, 0x4e048354, 0x3903b3c2, 0xa7672661, 0xd06016f7, 0x4969474d, 0x3e6e77db,
       0xaed16a4a, 0xd9d65adc, 0x40df0b66, 0x37d83bf0, 0xa9bcae53, 0xdebb9ec5, 0x47b2cf7f, 0x30b5ffe9]
    else
      [0xbdbdf21c, 0xcabac28a, 0x53b39330, 0x24b4a3a6, 0xbad03605, 0xcdd70693, 0x54de5729, 0x23d967bf,
       0xb3667a2e, 0xc4614ab8, 0x5d681b02, 0x2a6f2b94, 0xb40bbe37, 0xc30c8ea1, 0x5a05df1b, 0x2d02ef8d]
  }

  lemma IndexNibble(x: bv32)
    ensures (x & 0xF) as nat < 16
  {
  }

  /** ngx_crc32_table_short[i] */
  function Entry16(i: bv32): bv32
    requires i < 16
  {
    TABLE16[i as nat]
  }

  /** ngx_crc32_table256[i] */
  function Entry256(i: bv32): bv32
    requires i < 256
  {
    IndexNibble(i);
    Row(i >> 4)[(i & 0xF) as nat]
  }

  function Xor(a: bv32, b: bv32): bv32 {
    a ^ b
  }

  /* ---- the checksum, bit by bit ---- */

  /** One bit is shifted out of the register. */
  function Bit(c: bv32): bv32 {
    if c & 1 == 1 then Xor(c >> 1, POLYNOMIAL) else c >> 1
  }

  function Nibble(c: bv32): bv32 {
    Bit(Bit(Bit(Bit(c))))
  }

  function Byte(c: bv32): bv32 {
    Nibble(Nibble(c))
  }

  /** The register after one byte of data. */
  function Enter(c: bv32, b: bv8): bv32 {
    Byte(Xor(c, b as bv32))
  }

  /** The register after some bytes. */
  function Fold(c: bv32, data: seq<bv8>): bv32
    decreases |data|
  {
    if data == [] then c else Fold(Enter(c, data[0]), data[1..])
  }

  lemma {:induction false} FoldAppend(c: bv32, a: seq<bv8>, b: seq<bv8>)
    ensures Fold(c, a + b) == Fold(Fold(c, a), b)
    decreases |a|
  {
    hide Enter;
    if a == [] {
      assert a + b == b;
    } else {
      FoldAppend(Enter(c, a[0]), a[1..], b);
      assert (a + b)[1..] == a[1..] + b;
    }
  }

  /* ---- the register is linear ---- */

  lemma ShiftXor(a: bv32, b: bv32)
    ensures (a ^ b) >> 1 == (a >> 1) ^ (b >> 1)
  {
  }

  lemma LowXor(a: bv32, b: bv32)
    ensures ((a ^ b) & 1 == 1) <==> (a & 1 == 1) != (b & 1 == 1)
  {
  }

  lemma XorTwice(a: bv32, b: bv32)
    ensures (a ^ POLYNOMIAL) ^ (b ^ POLYNOMIAL) == a ^ b && (a ^ POLYNOMIAL) ^ b == (a ^ b) ^ POLYNOMIAL
    ensures a ^ (b ^ POLYNOMIAL) == (a ^ b) ^ POLYNOMIAL
  {
  }

  lemma BitXor(a: bv32, b: bv32)
    ensures Bit(Xor(a, b)) == Xor(Bit(a), Bit(b))
  {
    ShiftXor(a, b);
    LowXor(a, b);
    XorTwice(a >> 1, b >> 1);
  }

  lemma NibbleXor(a: bv32, b: bv32)
    ensures Nibble(Xor(a, b)) == Xor(Nibble(a), Nibble(b))
  {
    hide Bit;
    hide Xor;
    BitXor(a, b);
    BitXor(Bit(a), Bit(b));
    BitXor(Bit(Bit(a)), Bit(Bit(b)));
    BitXor(Bit(Bit(Bit(a))), Bit(Bit(Bit(b))));
  }

  lemma ByteXor(a: bv32, b: bv32)
    ensures Byte(Xor(a, b)) == Xor(Byte(a), Byte(b))
  {
    hide Nibble;
    hide Xor;
    NibbleXor(a, b);
    NibbleXor(Nibble(a), Nibble(b));
  }

  /** Bits that do not reach the end of the register are only shifted. */
  lemma NibbleHigh(c: bv32)
    requires c & 0xF == 0
    ensures Nibble(c) == c >> 4
  {
  }

  lemma ByteHigh(c: bv32)
    requires c & 0xFF == 0
    ensures Byte(c) == c >> 8
  {
    hide Nibble;
    NibbleHigh(c);
    NibbleHigh(c >> 4);
  }

  /* ---- the tables ---- */

  /** The short table holds the registers that four bits leave behind. */
  lemma ShortTable(x: bv32)
    requires x < 16
    ensures Entry16(x) == Nibble(x)
  {
    assert x == 0 || x == 1 || x == 2 || x == 3 || x == 4 || x == 5 || x == 6 || x == 7
        || x == 8 || x == 9 || x == 10 || x == 11 || x == 12 || x == 13 || x == 14 || x == 15;
  }

  /** The entry before which nothing is shifted out. */
  lemma FirstEntry(l: bv32)
    ensures Xor(Row(0)[0], l) == l
  {
  }

  lemma FirstRow(l: bv32)
    requires l < 16
    ensures Row(0)[l as nat] == Byte(l)
  {
    ShortTable(l);
    assert l == 0 || l == 1 || l == 2 || l == 3 || l == 4 || l == 5 || l == 6 || l == 7
        || l == 8 || l == 9 || l == 10 || l == 11 || l == 12 || l == 13 || l == 14 || l == 15;
  }

  lemma FirstColumn(h: bv32)
    requires h < 16
    ensures Row(h)[0] == Byte(h << 4)
  {
    hide Nibble;
    assert h == 0 || h == 1 || h == 2 || h == 3 || h == 4 || h == 5 || h == 6 || h == 7
        || h == 8 || h == 9 || h == 10 || h == 11 || h == 12 || h == 13 || h == 14 || h == 15;
    NibbleHigh(h << 4);
    assert (h << 4) >> 4 == h;
    ShortTable(h);
  }

  /** An entry differs from the first of its row as the one above it in the first row does. */
  lemma TopRows(h: bv32, l: bv32)
    requires 0 < h < 4
    requires l < 16
    ensures Row(h)[l as nat] == Xor(Row(h)[0], Row(0)[l as nat])
  {
    assert l == 0 || l == 1 || l == 2 || l == 3 || l == 4 || l == 5 || l == 6 || l == 7
        || l == 8 || l == 9 || l == 10 || l == 11 || l == 12 || l == 13 || l == 14 || l == 15;
  }

  lemma UpperRows(h: bv32, l: bv32)
    requires 4 <= h < 8
    requires l < 16
    ensures Row(h)[l as nat] == Xor(Row(h)[0], Row(0)[l as nat])
  {
    assert l == 0 || l == 1 || l == 2 || l == 3 || l == 4 || l == 5 || l == 6 || l == 7
        || l == 8 || l == 9 || l == 10 || l == 11 || l == 12 || l == 13 || l == 14 || l == 15;
  }

  lemma LowerRows(h: bv32, l: bv32)
    requires 8 <= h < 12
    requires l < 16
    ensures Row(h)[l as nat] == Xor(Row(h)[0], Row(0)[l as nat])
  {
    assert l == 0 || l == 1 || l == 2 || l == 3 || l == 4 || l == 5 || l == 6 || l == 7
        || l == 8 || l == 9 || l == 10 || l == 11 || l == 12 || l == 13 || l == 14 || l == 15;
  }

  lemma BottomRows(h: bv32, l: bv32)
    requires 12 <= h < 16
    requires l < 16
    ensures Row(h)[l as nat] == Xor(Row(h)[0], Row(0)[l as nat])
  {
    assert l == 0 || l == 1 || l == 2 || l == 3 || l == 4 || l == 5 || l == 6 || l == 7
        || l == 8 || l == 9 || l == 10 || l == 11 || l == 12 || l == 13 || l == 14 || l == 15;
  }

  /** The long table holds the registers that a byte leaves behind. */
  lemma LongTable(x: bv32)
    requires x < 256
    ensures Entry256(x) == Byte(x)
  {
    hide Row;
    hide Byte;
    hide Xor;
    var h, l := x >> 4, x & 0xF;
    Joined(x);
    FirstRow(l);
    FirstColumn(h);
    ByteXor(h << 4, l);
    if h == 0 {
      FirstEntry(Row(0)[l as nat]);
    } else if h < 4 {
      TopRows(h, l);
    } else if h < 8 {
      UpperRows(h, l);
    } else if h < 12 {
      LowerRows(h, l);
    } else {
      BottomRows(h, l);
    }
  }

  lemma Joined(x: bv32)
    requires x < 256
    ensures x >> 4 < 16 && x & 0xF < 16 && Xor((x >> 4) << 4, x & 0xF) == x
  {
  }

  /* ---- a step by table ---- */

  /** The part of the register that four bits meet, and the rest. */
  lemma NibbleParts(crc: bv32, n: bv32)
    requires n < 16
    ensures var low, high := (crc ^ n) & 0xF, (crc ^ n) & 0xFFFFFFF0;
            low < 16 && Xor(low, high) == Xor(crc, n) && high & 0xF == 0 && high >> 4 == crc >> 4
  {
    var x := crc ^ n;
    assert (x & 0xF) ^ (x & 0xFFFFFFF0) == x && x & 0xF < 16 && (x & 0xFFFFFFF0) & 0xF == 0;
    NibbleUpper(crc, n);
  }

  lemma NibbleUpper(crc: bv32, n: bv32)
    requires n < 16
    ensures ((crc ^ n) & 0xFFFFFFF0) >> 4 == crc >> 4
  {
    assert n >> 4 == 0;
    assert ((crc ^ n) & 0xFFFFFFF0) >> 4 == (crc >> 4) ^ (n >> 4);
  }

  /** ngx_crc32_table_short[(crc ^ n) & 0xf] ^ (crc >> 4) */
  function ShortStep(crc: bv32, n: bv32): bv32
    requires n < 16
  {
    Xor(Entry16((crc ^ n) & 0xF), crc >> 4)
  }

  lemma ShortStepIs(crc: bv32, n: bv32)
    requires n < 16
    ensures ShortStep(crc, n) == Nibble(Xor(crc, n))
  {
    hide Nibble;
    hide Entry16;
    hide Xor;
    var low, high := (crc ^ n) & 0xF, (crc ^ n) & 0xFFFFFFF0;
    NibbleParts(crc, n);
    ShortTable(low);
    NibbleXor(low, high);
    NibbleHigh(high);
  }

  lemma HalvesOf(c: bv8)
    ensures var b, low, high := c as bv32, (c & 0xF) as bv32, (c >> 4) as bv32;
            low == b & 0xF && high == b >> 4 && b < 256
  {
  }

  lemma HalvesJoin(b: bv32)
    requires b < 256
    ensures b & 0xF < 16 && b >> 4 < 16 && ((b >> 4) << 4) & 0xF == 0 && ((b >> 4) << 4) >> 4 == b >> 4
    ensures Xor(b & 0xF, (b >> 4) << 4) == b
  {
  }

  lemma XorAssociates(a: bv32, b: bv32, c: bv32)
    ensures Xor(a, Xor(b, c)) == Xor(Xor(a, b), c)
  {
  }

  lemma Halves(crc: bv32, c: bv8)
    ensures var low, high := (c & 0xF) as bv32, (c >> 4) as bv32;
            && low < 16 && high < 16
            && Xor(crc, c as bv32) == Xor(Xor(crc, low), high << 4) && (high << 4) & 0xF == 0
            && (high << 4) >> 4 == high
  {
    hide Xor;
    var b := c as bv32;
    HalvesOf(c);
    HalvesJoin(b);
    XorAssociates(crc, b & 0xF, (b >> 4) << 4);
  }

  /** The lower half of the byte, then the upper one. */
  lemma ShortSteps(crc: bv32, c: bv8)
    ensures (c & 0xF) as bv32 < 16 && (c >> 4) as bv32 < 16
    ensures ShortStep(ShortStep(crc, (c & 0xF) as bv32), (c >> 4) as bv32) == Enter(crc, c)
  {
    hide Nibble;
    hide Xor;
    hide ShortStep;
    Halves(crc, c);
    var low, high := (c & 0xF) as bv32, (c >> 4) as bv32;
    ShortStepIs(crc, low);
    ShortStepIs(ShortStep(crc, low), high);
    NibbleXor(Xor(crc, low), high << 4);
    NibbleHigh(high << 4);
  }

  lemma ByteParts(crc: bv32, b: bv8)
    ensures var low, high := (crc ^ b as bv32) & 0xFF, (crc ^ b as bv32) & 0xFFFFFF00;
            low < 256 && Xor(low, high) == Xor(crc, b as bv32) && high & 0xFF == 0 && high >> 8 == crc >> 8
  {
  }

  /** ngx_crc32_table256[(crc ^ b) & 0xff] ^ (crc >> 8) */
  function LongStep(crc: bv32, b: bv8): bv32 {
    Xor(Entry256((crc ^ b as bv32) & 0xFF), crc >> 8)
  }

  lemma LongStepIs(crc: bv32, b: bv8)
    ensures LongStep(crc, b) == Enter(crc, b)
  {
    hide Byte;
    hide Entry256;
    hide Xor;
    var low, high := (crc ^ b as bv32) & 0xFF, (crc ^ b as bv32) & 0xFFFFFF00;
    ByteParts(crc, b);
    LongTable(low);
    ByteXor(low, high);
    ByteHigh(high);
  }

  /* ---- ngx_crc32.h ---- */

  lemma FoldOne(crc: bv32, p: seq<bv8>, i: nat)
    requires i < |p|
    ensures Fold(crc, p[i..]) == Fold(Enter(crc, p[i]), p[i + 1..])
  {
    hide Enter;
    assert p[i..][1..] == p[i + 1..];
  }

  /** ngx_crc32_short */
  method Short(p: seq<bv8>) returns (r: bv32)
    ensures r == Fold(ONES, p) ^ ONES
  {
    hide ShortStep;
    hide Enter;
    var crc := ONES;
    var i := 0;
    while i < |p|
      invariant 0 <= i <= |p| && Fold(ONES, p) == Fold(crc, p[i..])
    {
      var c := p[i];
      ShortSteps(crc, c);
      FoldOne(crc, p, i);
      crc := ShortStep(crc, (c & 0xF) as bv32);
      crc := ShortStep(crc, (c >> 4) as bv32);
      i := i + 1;
    }
    r := crc ^ ONES;
  }

  /** ngx_crc32_long */
  method Long(p: seq<bv8>) returns (r: bv32)
    ensures r == Fold(ONES, p) ^ ONES
  {
    hide LongStep;
    hide Enter;
    var crc := ONES;
    var i := 0;
    while i < |p|
      invariant 0 <= i <= |p| && Fold(ONES, p) == Fold(crc, p[i..])
    {
      LongStepIs(crc, p[i]);
      FoldOne(crc, p, i);
      crc := LongStep(crc, p[i]);
      i := i + 1;
    }
    r := crc ^ ONES;
  }

  /** A checksum that is computed in pieces. */
  class Register {
    var crc: bv32

    /** ngx_crc32_init */
    constructor ()
      ensures crc == ONES
    {
      crc := ONES;
    }

    /** ngx_crc32_update */
    method Update(p: seq<bv8>)
      modifies this
      ensures crc == Fold(old(crc), p)
    {
      hide LongStep;
      hide Enter;
      var c := crc;
      var i := 0;
      while i < |p|
        invariant 0 <= i <= |p| && Fold(old(crc), p) == Fold(c, p[i..])
      {
        LongStepIs(c, p[i]);
        FoldOne(c, p, i);
        c := LongStep(c, p[i]);
        i := i + 1;
      }
      crc := c;
    }

    /** ngx_crc32_final */
    method Final()
      modifies this
      ensures crc == old(crc) ^ ONES
    {
      crc := crc ^ ONES;
    }
  }

  /** The checksum of the pieces of a text, one after the other, is that of the text. */
  lemma {:induction false} Pieces(c: bv32, pieces: seq<seq<bv8>>)
    ensures FoldAll(c, pieces) == Fold(c, Flat(pieces))
    decreases |pieces|
  {
    if pieces != [] {
      Pieces(Fold(c, pieces[0]), pieces[1..]);
      FoldAppend(c, pieces[0], Flat(pieces[1..]));
    }
  }

  function Flat(pieces: seq<seq<bv8>>): seq<bv8> {
    if pieces == [] then [] else pieces[0] + Flat(pieces[1..])
  }

  /** The register after a number of updates. */
  function FoldAll(c: bv32, pieces: seq<seq<bv8>>): bv32
    decreases |pieces|
  {
    if pieces == [] then c else FoldAll(Fold(c, pieces[0]), pieces[1..])
  }

  /** The checksum of a text that comes in pieces is that of the whole text. */
  method InPieces(pieces: seq<seq<bv8>>) returns (r: bv32)
    ensures r == Fold(ONES, Flat(pieces)) ^ ONES
  {
    hide Fold;
    var register := new Register();
    var i := 0;
    while i < |pieces|
      invariant 0 <= i <= |pieces| && fresh(register)
      invariant FoldAll(register.crc, pieces[i..]) == FoldAll(ONES, pieces)
    {
      assert pieces[i..][0] == pieces[i] && pieces[i..][1..] == pieces[i + 1..];
      register.Update(pieces[i]);
      i := i + 1;
    }
    Pieces(ONES, pieces);
    register.Final();
    r := register.crc;
  }

  /* ---- no two registers become the same ---- */

  lemma BitInjective(a: bv32, b: bv32)
    ensures Bit(a) == Bit(b) ==> a == b
  {
  }

  lemma ByteInjective(a: bv32, b: bv32)
    ensures Byte(a) == Byte(b) ==> a == b
  {
    hide Bit;
    if Byte(a) == Byte(b) {
      var a4, b4 := Nibble(a), Nibble(b);
      BitInjective(Bit(Bit(Bit(a4))), Bit(Bit(Bit(b4))));
      BitInjective(Bit(Bit(a4)), Bit(Bit(b4)));
      BitInjective(Bit(a4), Bit(b4));
      BitInjective(a4, b4);
      BitInjective(Bit(Bit(Bit(a))), Bit(Bit(Bit(b))));
      BitInjective(Bit(Bit(a)), Bit(Bit(b)));
      BitInjective(Bit(a), Bit(b));
      BitInjective(a, b);
    }
  }

  lemma XorInjective(a: bv32, b: bv32, c: bv32)
    ensures Xor(a, c) == Xor(b, c) || Xor(c, a) == Xor(c, b) ==> a == b
  {
    assert (a ^ c) ^ c == a && (b ^ c) ^ c == b && (c ^ a) ^ c == a && (c ^ b) ^ c == b;
  }

  lemma {:induction false} FoldInjective(a: bv32, b: bv32, data: seq<bv8>)
    requires Fold(a, data) == Fold(b, data)
    ensures a == b
    decreases |data|
  {
    hide Byte;
    hide Xor;
    if data != [] {
      FoldInjective(Enter(a, data[0]), Enter(b, data[0]), data[1..]);
      ByteInjective(Xor(a, data[0] as bv32), Xor(b, data[0] as bv32));
      XorInjective(a, b, data[0] as bv32);
    }
  }

  /** The register after so many zero bytes. */
  function Shifted(c: bv32, n: nat): bv32
    decreases n
  {
    if n == 0 then c else Shifted(Byte(c), n - 1)
  }

  lemma {:induction false} ShiftedInjective(a: bv32, b: bv32, n: nat)
    requires Shifted(a, n) == Shifted(b, n)
    ensures a == b
    decreases n
  {
    hide Byte;
    if n > 0 {
      ShiftedInjective(Byte(a), Byte(b), n - 1);
      ByteInjective(a, b);
    }
  }

  /** A byte below three others. */
  function Join(w: bv32, b: bv8): bv32 {
    Xor(w << 8, b as bv32)
  }

  /** Up to four bytes as a word, the first lowest. */
  function Word(x: seq<bv8>): bv32 {
    if x == [] then 0 else Join(Word(x[1..]), x[0])
  }

  /** Three bytes leave the upper ones of a word clear. */
  lemma {:induction false} WordBound(x: seq<bv8>)
    ensures |x| == 0 ==> Word(x) == 0
    ensures |x| == 1 ==> Word(x) < 0x100
    ensures |x| == 2 ==> Word(x) < 0x1_0000
    ensures |x| == 3 ==> Word(x) < 0x100_0000
  {
    if x != [] {
      WordBound(x[1..]);
    }
  }

  lemma {:induction false} WordInjective(x: seq<bv8>, y: seq<bv8>)
    requires |x| == |y| <= 4 && Word(x) == Word(y)
    ensures x == y
  {
    hide Join;
    if x != [] {
      ThreeBytes(x[1..]);
      ThreeBytes(y[1..]);
      JoinInjective(Word(x[1..]), x[0], Word(y[1..]), y[0]);
      WordInjective(x[1..], y[1..]);
      assert x == [x[0]] + x[1..] && y == [y[0]] + y[1..];
    }
  }

  lemma ThreeBytes(x: seq<bv8>)
    requires |x| <= 3
    ensures Word(x) < 0x100_0000
  {
    hide Word;
    WordBound(x);
  }

  lemma JoinInjective(a: bv32, x: bv8, b: bv32, y: bv8)
    requires a < 0x100_0000 && b < 0x100_0000 && Join(a, x) == Join(b, y)
    ensures a == b && x == y
  {
    LowByte(a, x);
    LowByte(b, y);
  }

  lemma LowByte(a: bv32, x: bv8)
    requires a < 0x100_0000
    ensures Join(a, x) & 0xFF == x as bv32 && Join(a, x) >> 8 == a
  {
  }

  /** Up to four bytes could as well have been in the register from the start. */
  lemma {:induction false} FoldWord(c: bv32, x: seq<bv8>)
    requires |x| <= 4
    ensures Fold(c, x) == Shifted(Xor(c, Word(x)), |x|)
    decreases |x|
  {
    hide Byte;
    if x == [] {
      assert Xor(c, 0) == c;
    } else {
      hide Xor;
      hide Join;
      hide Enter;
      ThreeBytes(x[1..]);
      FoldWord(Enter(c, x[0]), x[1..]);
      EnterJoin(c, x[0], Word(x[1..]));
    }
  }

  /** A byte that enters the register leaves it with the next ones above. */
  lemma EnterJoin(c: bv32, b: bv8, w: bv32)
    requires w < 0x100_0000
    ensures Xor(Enter(c, b), w) == Byte(Xor(c, Join(w, b)))
  {
    hide Byte;
    ByteXor(Xor(c, b as bv32), w << 8);
    ShiftUp(w);
    XorThree(c, b as bv32, w << 8);
    hide Xor;
  }

  lemma ShiftUp(w: bv32)
    requires w < 0x100_0000
    ensures Byte(w << 8) == w
  {
    hide Byte;
    ByteHigh(w << 8);
  }

  lemma XorThree(a: bv32, b: bv32, c: bv32)
    ensures Xor(Xor(a, b), c) == Xor(a, Xor(c, b))
  {
  }

  /** Two texts of the same length differ, and only within four consecutive bytes from i on. */
  ghost predicate Burst(a: seq<bv8>, b: seq<bv8>, i: nat) {
    |a| == |b| && a != b && forall j :: 0 <= j < |a| && !(i <= j < i + 4) ==> a[j] == b[j]
  }

  /** Such texts have different checksums, whatever the register started with. */
  lemma BurstDetected(c: bv32, a: seq<bv8>, b: seq<bv8>, i: nat)
    requires Burst(a, b, i)
    ensures Fold(c, a) != Fold(c, b)
  {
    var from := if i < |a| then i else |a|;
    var to := if i + 4 < |a| then i + 4 else |a|;
    var x, y, rest := a[from..to], b[from..to], a[to..];
    assert a[..from] == b[..from] && rest == b[to..];
    assert a == a[..from] + x + rest && b == a[..from] + y + rest;
    FoldAppend(c, a[..from] + x, rest);
    FoldAppend(c, a[..from] + y, rest);
    FoldAppend(c, a[..from], x);
    FoldAppend(c, a[..from], y);
    if Fold(c, a) == Fold(c, b) {
      BurstRest(Fold(c, a[..from]), x, y, rest);
    }
  }

  lemma BurstRest(c: bv32, x: seq<bv8>, y: seq<bv8>, rest: seq<bv8>)
    requires |x| == |y| <= 4 && Fold(Fold(c, x), rest) == Fold(Fold(c, y), rest)
    ensures x == y
  {
    hide Xor;
    hide Word;
    hide Shifted;
    FoldInjective(Fold(c, x), Fold(c, y), rest);
    FoldWord(c, x);
    FoldWord(c, y);
    ShiftedInjective(Xor(c, Word(x)), Xor(c, Word(y)), |x|);
    XorInjective(Word(x), Word(y), c);
    WordInjective(x, y);
  }

  /** Five bytes are too many: these two texts have the same checksum. */
  lemma FiveBytesMissed()
    ensures Fold(0, [0, 0, 0, 0, 0]) == Fold(0, [1, 0x96, 0x30, 0x07, 0x77])
  {
    assert Enter(0, 0) == 0;
    assert Enter(0, 1) == 0x77073096;
    assert Enter(0x77073096, 0x96) == 0x770730;
    assert Enter(0x770730, 0x30) == 0x7707;
    assert Enter(0x7707, 0x07) == 0x77;
    assert Enter(0x77, 0x77) == 0;
    hide Enter;
    assert Fold(0, [0, 0, 0, 0, 0]) == 0;
  }

  /** The checksum of the digits from 1 to 9, which is published as the check value of this checksum. */
  lemma CheckValue()
    ensures Fold(0xFFFFFFFF, [0x31, 0x32, 0x33, 0x34, 0x35, 0x36, 0x37, 0x38, 0x39]) ^ 0xFFFFFFFF == 0xCBF43926
  {
    var p: seq<bv8> := [0x31, 0x32, 0x33, 0x34, 0x35, 0x36, 0x37, 0x38, 0x39];
    FoldsTo(0xFFFFFFFF, p, 0, 0x7C231048);
    FoldsTo(0x7C231048, p, 1, 0xB0ACBB32);
    FoldsTo(0xB0ACBB32, p, 2, 0x77B79C2D);
    FoldsTo(0x77B79C2D, p, 3, 0x641C1F5C);
    FoldsTo(0x641C1F5C, p, 4, 0x340AC5E3);
    FoldsTo(0x340AC5E3, p, 5, 0xF68D2C9E);
    FoldsTo(0xF68D2C9E, p, 6, 0xAFFC9660);
    FoldsTo(0xAFFC9660, p, 7, 0x651F2550);
    FoldsTo(0x651F2550, p, 8, 0x340BC6D9);
    hide Enter;
    assert p[0..] == p && p[9..] == [];
  }

  lemma FoldsTo(c: bv32, p: seq<bv8>, i: nat, next: bv32)
    requires i < |p| && Enter(c, p[i]) == next
    ensures Fold(c, p[i..]) == Fold(next, p[i + 1..])
  {
    hide Enter;
    FoldOne(c, p, i);
  }

  /** A register that starts with 0 does not see zero bytes at the start of a file. */
  lemma {:induction false} LeadingZeros(n: nat, data: seq<bv8>)
    ensures Fold(0, seq(n, i => 0) + data) == Fold(0, data)
  {
    if n == 0 {
      assert seq(n, i => 0) + data == data;
    } else {
      LeadingZeros(n - 1, data);
      var s := seq(n, i => 0) + data;
      assert s[1..] == seq(n - 1, i => 0) + data;
      assert Enter(0, 0) == 0;
    }
  }

  /* ---- backend/parser.py ---- */

  /** A block of a file. */
  method Block(start: bv32, block: seq<bv8>) returns (crc: bv32)
    ensures crc == Fold(start, block)
  {
    hide Byte;
    hide Xor;
    crc := start;
    var i := 0;
    while i < |block|
      invariant 0 <= i <= |block| && Fold(start, block) == Fold(crc, block[i..])
    {
      FoldOne(crc, block, i);
      crc := ShiftByte(Xor(crc, block[i] as bv32));
      i := i + 1;
    }
  }

  /* ---- the checksum of a file, as text ---- */

  function HexDigit(n: nat): char
    requires n < 16
  {
    if n < 10 then '0' + n as char else 'A' + (n - 10) as char
  }

  /** The last k digits of a number. */
  function HexDigits(n: nat, k: nat): (s: string)
    ensures |s| == k
  {
    if k == 0 then "" else HexDigits(n / 16, k - 1) + [HexDigit(n % 16)]
  }

  function Sixteens(k: nat): nat {
    if k == 0 then 1 else 16 * Sixteens(k - 1)
  }

  /** Numbers that fit are written differently if they are different. */
  lemma {:induction false} HexInjective(a: nat, b: nat, k: nat)
    requires a < Sixteens(k) && b < Sixteens(k) && HexDigits(a, k) == HexDigits(b, k)
    ensures a == b
  {
    if k > 0 {
      var s, t := HexDigits(a, k), HexDigits(b, k);
      assert s[..k - 1] == HexDigits(a / 16, k - 1) && s[k - 1] == HexDigit(a % 16);
      assert t[..k - 1] == HexDigits(b / 16, k - 1) && t[k - 1] == HexDigit(b % 16);
      HexInjective(a / 16, b / 16, k - 1);
      DigitInjective(a % 16, b % 16);
    }
  }

  lemma DigitInjective(a: nat, b: nat)
    requires a < 16 && b < 16 && HexDigit(a) == HexDigit(b)
    ensures a == b
  {
  }

  function Number(w: bv32): (n: nat)
    ensures n < 0x1_0000_0000
  {
    w as nat
  }

  /** format(crc, '08X') */
  function Hex8(w: bv32): (s: string)
    ensures |s| == 8
  {
    HexDigits(Number(w), 8)
  }

  /** The number that digits in upper case stand for. */
  function HexValue(s: string): int {
    if s == [] then 0 else
      var c := s[|s| - 1];
      HexValue(s[..|s| - 1]) * 16 + if c <= '9' then c as int - '0' as int else c as int - 'A' as int + 10
  }

  predicate UpperHex(c: char) {
    '0' <= c <= '9' || 'A' <= c <= 'F'
  }

  lemma {:induction false} DigitsValue(n: nat, k: nat)
    requires n < Sixteens(k)
    ensures HexValue(HexDigits(n, k)) == n && forall i :: 0 <= i < k ==> UpperHex(HexDigits(n, k)[i])
  {
    if k > 0 {
      DigitsValue(n / 16, k - 1);
      var s := HexDigits(n, k);
      assert s[..k - 1] == HexDigits(n / 16, k - 1) && s[k - 1] == HexDigit(n % 16);
    }
  }

  /** The eight digits stand for the checksum. */
  lemma Hex8Value(w: bv32)
    ensures HexValue(Hex8(w)) == w as nat && forall i :: 0 <= i < 8 ==> UpperHex(Hex8(w)[i])
  {
    hide HexDigits;
    hide HexValue;
    EightDigits();
    hide Sixteens;
    DigitsValue(Number(w), 8);
  }

  lemma Hex8Injective(a: bv32, b: bv32)
    requires Hex8(a) == Hex8(b)
    ensures a == b
  {
    hide Number;
    hide HexDigits;
    EightDigits();
    hide Sixteens;
    HexInjective(Number(a), Number(b), 8);
    SameWord(a, b);
  }

  lemma EightDigits()
    ensures Sixteens(8) == 0x1_0000_0000
  {
  }

  lemma SameWord(a: bv32, b: bv32)
    requires Number(a) == Number(b)
    ensures a == b
  {
    assert (a as nat) as bv32 == a && (b as nat) as bv32 == b;
  }

  const NOT_FOUND: string := "FILE_NOT_FOUND"

  lemma Masked(w: bv32)
    ensures w & ONES == w
  {
  }

  /** file_crc32, of a file that may not be there; the file is read in blocks. */
  method FileCrc32(file: Option<seq<bv8>>) returns (r: string)
    ensures r == if file.None? then NOT_FOUND else Hex8(Fold(0, file.value))
  {
    hide Enter;
    hide Hex8;
    if file.None? {
      return NOT_FOUND;
    }
    var f := file.value;
    var crc: bv32 := 0;
    var at := 0;
    while at < |f|
      invariant 0 <= at <= |f| && crc == Fold(0, f[..at])
      decreases |f| - at
    {
      var end := if at + 4096 < |f| then at + 4096 else |f|;
      FoldAppend(0, f[..at], f[at..end]);
      assert f[..at] + f[at..end] == f[..end];
      crc := Block(crc, f[at..end]);
      at := end;
    }
    assert f[..at] == f;
    Masked(crc);
    r := Hex8(crc & ONES);
  }

  /** Eight bits are shifted out. */
  method ShiftByte(c: bv32) returns (r: bv32)
    ensures r == Byte(c)
  {
    hide Bit;
    r := c;
    var k := 0;
    while k < 8
      invariant 0 <= k <= 8 && r == Bits(c, k)
    {
      BitsStep(c, k);
      r := ShiftBit(r);
      k := k + 1;
    }
    BitsByte(c);
  }

  method ShiftBit(c: bv32) returns (r: bv32)
    ensures r == Bit(c)
  {
    if c & 1 == 1 {
      r := (c >> 1) ^ 0xEDB88320;
    } else {
      r := c >> 1;
    }
  }

  function Bits(c: bv32, k: nat): bv32 {
    if k == 0 then c else Bit(Bits(c, k - 1))
  }

  lemma BitsStep(c: bv32, k: nat)
    ensures Bits(c, k + 1) == Bit(Bits(c, k))
  {
  }

  lemma BitsByte(c: bv32)
    ensures Bits(c, 8) == Byte(c)
  {
    hide Bit;
    BitsStep(c, 0);
    BitsStep(c, 1);
    BitsStep(c, 2);
    BitsStep(c, 3);
    BitsStep(c, 4);
    BitsStep(c, 5);
    BitsStep(c, 6);
    BitsStep(c, 7);
  }

  /** check_crc_diffs: whether the checksums of two files differ. A change within four consecutive bytes is seen. */
  method CheckCrcDiffs(file1: Option<seq<bv8>>, file2: Option<seq<bv8>>) returns (differ: bool)
    ensures differ <==> file1.Some? && file2.Some? && Fold(0, file1.value) != Fold(0, file2.value)
    ensures forall i: nat :: file1.Some? && file2.Some? && Burst(file1.value, file2.value, i) ==> differ
  {
    var crc1 := FileCrc32(file1);
    var crc2 := FileCrc32(file2);
    hide Hex8;
    hide Fold;
    assert |NOT_FOUND| == 14;
    if crc1 == NOT_FOUND || crc2 == NOT_FOUND {
      return false;
    }
    differ := crc1 != crc2;
    if crc1 == crc2 {
      Hex8Injective(Fold(0, file1.value), Fold(0, file2.value));
    }
    forall i: nat | Burst(file1.value, file2.value, i) ensures differ {
      BurstDetected(0, file1.value, file2.value, i);
    }
  }
}
