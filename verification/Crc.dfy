/**
 CRC-32 (section 8 of RFC 1952) and `mz_crc32` of external/miniz.c, which takes a byte at a time
 from a table, four bytes to a round.
 */
module Crc {
  type Word = bv32
  type Data = seq<bv8>

  const POLYNOMIAL: Word := 0xEDB88320
  const ONES: Word := 0xFFFFFFFF

  function Xor(a: Word, b: Word): Word {
    a ^ b
  }

  function Down(a: Word): Word {
    a >> 1
  }

  function Wide(b: bv8): Word {
    b as Word
  }

  function Down8(a: Word): Word {
    a >> 8
  }

  function Low8(a: Word): Word {
    a & 0xFF
  }

  function High24(a: Word): Word {
    a & 0xFFFFFF00
  }

  // ---------- the definition ----------

  /** One bit of the division. */
  function Bit(c: Word): Word {
    if c & 1 == 1 then Xor(Down(c), POLYNOMIAL) else Down(c)
  }

  function Eight(c: Word): Word {
    Bit(Bit(Bit(Bit(Bit(Bit(Bit(Bit(c))))))))
  }

  /** The register after the bytes of `data`. */
  function Register(c: Word, data: Data): Word
    decreases |data|
  {
    if data == [] then c else Eight(Xor(Register(c, data[..|data| - 1]), Wide(data[|data| - 1])))
  }

  function Crc32(crc: Word, data: Data): Word {
    Xor(Register(Xor(crc, ONES), data), ONES)
  }

  lemma {:induction false} RegisterConcat(c: Word, x: Data, y: Data)
    ensures Register(c, x + y) == Register(Register(c, x), y)
    decreases |y|
  {
    hide Eight, Xor, Wide;
    if y == [] {
      assert x + y == x;
    } else {
      assert (x + y)[..|x + y| - 1] == x + y[..|y| - 1];
      RegisterConcat(c, x, y[..|y| - 1]);
    }
  }

  lemma XorTwice(x: Word, b: Word)
    ensures Xor(Xor(x, b), b) == x
  {
  }

  lemma XorCancel(x: Word, y: Word, b: Word)
    ensures Xor(x, b) == Xor(y, b) ==> x == y
  {
    hide Xor;
    XorTwice(x, b);
    XorTwice(y, b);
  }

  /** The checksum of a concatenation continues the checksum of the first part. */
  lemma Crc32Concat(crc: Word, x: Data, y: Data)
    ensures Crc32(crc, x + y) == Crc32(Crc32(crc, x), y)
  {
    hide Eight, Xor, Register;
    RegisterConcat(Xor(crc, ONES), x, y);
    XorTwice(Register(Xor(crc, ONES), x), ONES);
  }

  // ---------- errors ----------

  lemma BitInjective(c: Word, d: Word)
    ensures Bit(c) == Bit(d) ==> c == d
  {
  }

  lemma EightInjective(c: Word, d: Word)
    ensures Eight(c) == Eight(d) ==> c == d
  {
    hide Bit;
    var c1, d1 := Bit(c), Bit(d);
    var c2, d2 := Bit(c1), Bit(d1);
    var c3, d3 := Bit(c2), Bit(d2);
    var c4, d4 := Bit(c3), Bit(d3);
    var c5, d5 := Bit(c4), Bit(d4);
    var c6, d6 := Bit(c5), Bit(d5);
    BitInjective(c, d);
    BitInjective(c1, d1);
    BitInjective(c2, d2);
    BitInjective(c3, d3);
    BitInjective(c4, d4);
    BitInjective(c5, d5);
    BitInjective(c6, d6);
    BitInjective(Bit(c6), Bit(d6));
  }

  lemma {:induction false} RegisterInjective(c: Word, d: Word, data: Data)
    ensures Register(c, data) == Register(d, data) ==> c == d
    decreases |data|
  {
    hide Eight, Xor, Wide;
    if data != [] {
      var x, y, b := Register(c, data[..|data| - 1]), Register(d, data[..|data| - 1]), Wide(data[|data| - 1]);
      RegisterInjective(c, d, data[..|data| - 1]);
      EightInjective(Xor(x, b), Xor(y, b));
      XorCancel(x, y, b);
    }
  }

  lemma BitXor(x: Word, y: Word)
    requires y & 1 == 0
    ensures Bit(Xor(x, y)) == Xor(Bit(x), Down(y))
  {
    hide Xor, Down;
    DownXor(x, y);
    XorSwap(Down(x), Down(y), POLYNOMIAL);
  }

  lemma DownXor(x: Word, y: Word)
    ensures Down(Xor(x, y)) == Xor(Down(x), Down(y))
    ensures y & 1 == 0 ==> Xor(x, y) & 1 == x & 1
  {
  }

  lemma XorComm(x: Word, y: Word)
    ensures Xor(x, y) == Xor(y, x)
  {
  }

  lemma XorAssoc(x: Word, y: Word, z: Word)
    ensures Xor(Xor(x, y), z) == Xor(x, Xor(y, z))
  {
  }

  lemma XorSwap(x: Word, y: Word, p: Word)
    ensures Xor(Xor(x, y), p) == Xor(Xor(x, p), y)
  {
    hide Xor;
    XorAssoc(x, y, p);
    XorComm(y, p);
    XorAssoc(x, p, y);
  }

  lemma Downs(y: Word)
    requires Low8(y) == 0
    ensures var y1 := Down(y); var y2 := Down(y1); var y3 := Down(y2); var y4 := Down(y3); var y5 := Down(y4);
            var y6 := Down(y5); var y7 := Down(y6);
            y & 1 == y1 & 1 == y2 & 1 == y3 & 1 == y4 & 1 == y5 & 1 == y6 & 1 == y7 & 1 == 0 && Down(y7) == Down8(y)
  {
  }

  /** A byte may as well be added before the division by the bytes ahead of it. */
  lemma Ahead(x: Word, y: Word)
    requires Low8(y) == 0
    ensures Eight(Xor(x, y)) == Xor(Eight(x), Down8(y))
  {
    hide Bit, Xor, Down, Down8, Low8;
    Downs(y);
    var x1, y1 := Bit(x), Down(y);
    var x2, y2 := Bit(x1), Down(y1);
    var x3, y3 := Bit(x2), Down(y2);
    var x4, y4 := Bit(x3), Down(y3);
    var x5, y5 := Bit(x4), Down(y4);
    var x6, y6 := Bit(x5), Down(y5);
    BitXor(x, y);
    BitXor(x1, y1);
    BitXor(x2, y2);
    BitXor(x3, y3);
    BitXor(x4, y4);
    BitXor(x5, y5);
    BitXor(x6, y6);
    BitXor(Bit(x6), Down(y6));
  }

  // ---------- bursts ----------

  /** The bytes as a word, first byte lowest. */
  function Join(b0: bv8, b1: bv8, b2: bv8, b3: bv8): Word {
    (b0 as Word) | ((b1 as Word) << 8) | ((b2 as Word) << 16) | ((b3 as Word) << 24)
  }

  lemma JoinInjective(b0: bv8, b1: bv8, b2: bv8, b3: bv8, c0: bv8, c1: bv8, c2: bv8, c3: bv8)
    requires Join(b0, b1, b2, b3) == Join(c0, c1, c2, c3)
    ensures b0 == c0 && b1 == c1 && b2 == c2 && b3 == c3
  {
  }

  lemma JoinSplit(b0: bv8, b1: bv8, b2: bv8, b3: bv8)
    ensures Join(b0, b1, b2, b3) == Xor(Wide(b0), Join(0, b1, b2, b3))
  {
  }

  lemma JoinDown(b1: bv8, b2: bv8, b3: bv8)
    ensures Low8(Join(0, b1, b2, b3)) == 0 && Down8(Join(0, b1, b2, b3)) == Join(b1, b2, b3, 0)
  {
  }

  lemma JoinStep(x: Word, b0: bv8, b1: bv8, b2: bv8, b3: bv8)
    ensures Eight(Xor(x, Join(b0, b1, b2, b3))) == Xor(Eight(Xor(x, Wide(b0))), Join(b1, b2, b3, 0))
  {
    hide Eight, Xor, Join, Wide, Low8, Down8;
    JoinSplit(b0, b1, b2, b3);
    JoinDown(b1, b2, b3);
    XorAssoc(x, Wide(b0), Join(0, b1, b2, b3));
    Ahead(Xor(x, Wide(b0)), Join(0, b1, b2, b3));
  }

  lemma JoinNone(x: Word)
    ensures Xor(x, Join(0, 0, 0, 0)) == x
  {
  }

  /** Four bytes in a row are four steps of their word. */
  lemma FourBytes(c: Word, e: Data)
    requires |e| == 4
    ensures Register(c, e) == Eight(Eight(Eight(Eight(Xor(c, Join(e[0], e[1], e[2], e[3]))))))
  {
    hide Eight, Xor, Join, Wide;
    var r1 := Eight(Xor(c, Wide(e[0])));
    var r2 := Eight(Xor(r1, Wide(e[1])));
    var r3 := Eight(Xor(r2, Wide(e[2])));
    JoinStep(c, e[0], e[1], e[2], e[3]);
    JoinStep(r1, e[1], e[2], e[3], 0);
    JoinStep(r2, e[2], e[3], 0, 0);
    JoinStep(r3, e[3], 0, 0, 0);
    JoinNone(Eight(Xor(r3, Wide(e[3]))));
    FourRegisters(c, e);
  }

  lemma FourRegisters(c: Word, e: Data)
    requires |e| == 4
    ensures Register(c, e) == Eight(Xor(Eight(Xor(Eight(Xor(Eight(Xor(c, Wide(e[0]))), Wide(e[1]))), Wide(e[2]))),
            Wide(e[3])))
  {
    hide Eight, Xor, Wide;
    assert e[..3][..2] == e[..2] && e[..2][..1] == e[..1] && e[..1][..0] == [];
    assert Register(c, e[..1]) == Eight(Xor(c, Wide(e[0])));
    assert Register(c, e[..2]) == Eight(Xor(Register(c, e[..1]), Wide(e[1])));
    assert Register(c, e[..3]) == Eight(Xor(Register(c, e[..2]), Wide(e[2])));
  }

  lemma FourInjective(c: Word, e: Data, f: Data)
    requires |e| == |f| == 4 && Register(c, e) == Register(c, f)
    ensures e == f
  {
    hide Eight, Xor, Join, Register, Wide;
    FourBytes(c, e);
    FourBytes(c, f);
    var x, y := Xor(c, Join(e[0], e[1], e[2], e[3])), Xor(c, Join(f[0], f[1], f[2], f[3]));
    EightInjective(Eight(Eight(Eight(x))), Eight(Eight(Eight(y))));
    EightInjective(Eight(Eight(x)), Eight(Eight(y)));
    EightInjective(Eight(x), Eight(y));
    EightInjective(x, y);
    XorComm(c, Join(e[0], e[1], e[2], e[3]));
    XorComm(c, Join(f[0], f[1], f[2], f[3]));
    XorCancel(Join(e[0], e[1], e[2], e[3]), Join(f[0], f[1], f[2], f[3]), c);
    JoinInjective(e[0], e[1], e[2], e[3], f[0], f[1], f[2], f[3]);
  }

  lemma PartInjective(c: Word, e: Data, f: Data)
    requires |e| == |f| <= 4 && e != f
    ensures Register(c, e) != Register(c, f)
  {
    hide Eight, Xor, Register;
    var pad := Zeros(4 - |e|);
    RegisterConcat(c, e, pad);
    RegisterConcat(c, f, pad);
    assert e == (e + pad)[..|e|] && f == (f + pad)[..|f|];
    if Register(c, e) == Register(c, f) {
      FourInjective(c, e + pad, f + pad);
    }
  }

  /** Any damage within four bytes in a row changes the checksum. */
  lemma BurstDetected(crc: Word, before: Data, e: Data, f: Data, behind: Data)
    requires |e| == |f| <= 4 && e != f
    ensures Crc32(crc, before + e + behind) != Crc32(crc, before + f + behind)
  {
    hide Eight, Xor, Register;
    var c := Xor(crc, ONES);
    RegisterConcat(c, before + e, behind);
    RegisterConcat(c, before + f, behind);
    RegisterConcat(c, before, e);
    RegisterConcat(c, before, f);
    var s := Register(c, before);
    PartInjective(s, e, f);
    RegisterDiffers(Register(s, e), Register(s, f), behind);
  }

  lemma RegisterDiffers(x: Word, y: Word, behind: Data)
    requires x != y
    ensures Xor(Register(x, behind), ONES) != Xor(Register(y, behind), ONES)
  {
    hide Eight, Xor, Register;
    RegisterInjective(x, y, behind);
    XorCancel(Register(x, behind), Register(y, behind), ONES);
  }

  function Zeros(n: nat): (z: Data)
    ensures |z| == n
  {
    seq(n, _ => 0)
  }

  // ---------- the table ----------

  /** The rows of the table, eight entries each. */
  function Row(h: nat): (r: seq<Word>)
    ensures |r| == 8
  {
    match h
    case 0 => [0x00000000, 0x77073096, 0xEE0E612C, 0x990951BA, 0x076DC419, 0x706AF48F, 0xE963A535, 0x9E6495A3]
    case 1 => [0x0EDB8832, 0x79DCB8A4, 0xE0D5E91E, 0x97D2D988, 0x09B64C2B, 0x7EB17CBD, 0xE7B82D07, 0x90BF1D91]
    case 2 => [0x1DB71064, 0x6AB020F2, 0xF3B97148, 0x84BE41DE, 0x1ADAD47D, 0x6DDDE4EB, 0xF4D4B551, 0x83D385C7]
    case 3 => [0x136C9856, 0x646BA8C0, 0xFD62F97A, 0x8A65C9EC, 0x14015C4F, 0x63066CD9, 0xFA0F3D63, 0x8D080DF5]
    case 4 => [0x3B6E20C8, 0x4C69105E, 0xD56041E4, 0xA2677172, 0x3C03E4D1, 0x4B04D447, 0xD20D85FD, 0xA50AB56B]
    case 5 => [0x35B5A8FA, 0x42B2986C, 0xDBBBC9D6, 0xACBCF940, 0x32D86CE3, 0x45DF5C75, 0xDCD60DCF, 0xABD13D59]
    case 6 => [0x26D930AC, 0x51DE003A, 0xC8D75180, 0xBFD06116, 0x21B4F4B5, 0x56B3C423, 0xCFBA9599, 0xB8BDA50F]
    case 7 => [0x2802B89E, 0x5F058808, 0xC60CD9B2, 0xB10BE924, 0x2F6F7C87, 0x58684C11, 0xC1611DAB, 0xB6662D3D]
    case 8 => [0x76DC4190, 0x01DB7106, 0x98D220BC, 0xEFD5102A, 0x71B18589, 0x06B6B51F, 0x9FBFE4A5, 0xE8B8D433]
    case 9 => [0x7807C9A2, 0x0F00F934, 0x9609A88E, 0xE10E9818, 0x7F6A0DBB, 0x086D3D2D, 0x91646C97, 0xE6635C01]
    case 10 => [0x6B6B51F4, 0x1C6C6162, 0x856530D8, 0xF262004E, 0x6C0695ED, 0x1B01A57B, 0x8208F4C1, 0xF50FC457]
    case 11 => [0x65B0D9C6, 0x12B7E950, 0x8BBEB8EA, 0xFCB9887C, 0x62DD1DDF, 0x15DA2D49, 0x8CD37CF3, 0xFBD44C65]
    case 12 => [0x4DB26158, 0x3AB551CE, 0xA3BC0074, 0xD4BB30E2, 0x4ADFA541, 0x3DD895D7, 0xA4D1C46D, 0xD3D6F4FB]
    case 13 => [0x4369E96A, 0x346ED9FC, 0xAD678846, 0xDA60B8D0, 0x44042D73, 0x33031DE5, 0xAA0A4C5F, 0xDD0D7CC9]
    case 14 => [0x5005713C, 0x270241AA, 0xBE0B1010, 0xC90C2086, 0x5768B525, 0x206F85B3, 0xB966D409, 0xCE61E49F]
    case 15 => [0x5EDEF90E, 0x29D9C998, 0xB0D09822, 0xC7D7A8B4, 0x59B33D17, 0x2EB40D81, 0xB7BD5C3B, 0xC0BA6CAD]
    case 16 => [0xEDB88320, 0x9ABFB3B6, 0x03B6E20C, 0x74B1D29A, 0xEAD54739, 0x9DD277AF, 0x04DB2615, 0x73DC1683]
    case 17 => [0xE3630B12, 0x94643B84, 0x0D6D6A3E, 0x7A6A5AA8, 0xE40ECF0B, 0x9309FF9D, 0x0A00AE27, 0x7D079EB1]
    case 18 => [0xF00F9344, 0x8708A3D2, 0x1E01F268, 0x6906C2FE, 0xF762575D, 0x806567CB, 0x196C3671, 0x6E6B06E7]
    case 19 => [0xFED41B76, 0x89D32BE0, 0x10DA7A5A, 0x67DD4ACC, 0xF9B9DF6F, 0x8EBEEFF9, 0x17B7BE43, 0x60B08ED5]
    case 20 => [0xD6D6A3E8, 0xA1D1937E, 0x38D8C2C4, 0x4FDFF252, 0xD1BB67F1, 0xA6BC5767, 0x3FB506DD, 0x48B2364B]
    case 21 => [0xD80D2BDA, 0xAF0A1B4C, 0x36034AF6, 0x41047A60, 0xDF60EFC3, 0xA867DF55, 0x316E8EEF, 0x4669BE79]
    case 22 => [0xCB61B38C, 0xBC66831A, 0x256FD2A0, 0x5268E236, 0xCC0C7795, 0xBB0B4703, 0x220216B9, 0x5505262F]
    case 23 => [0xC5BA3BBE, 0xB2BD0B28, 0x2BB45A92, 0x5CB36A04, 0xC2D7FFA7, 0xB5D0CF31, 0x2CD99E8B, 0x5BDEAE1D]
    case 24 => [0x9B64C2B0, 0xEC63F226, 0x756AA39C, 0x026D930A, 0x9C0906A9, 0xEB0E363F, 0x72076785, 0x05005713]
    case 25 => [0x95BF4A82, 0xE2B87A14, 0x7BB12BAE, 0x0CB61B38, 0x92D28E9B, 0xE5D5BE0D, 0x7CDCEFB7, 0x0BDBDF21]
    case 26 => [0x86D3D2D4, 0xF1D4E242, 0x68DDB3F8, 0x1FDA836E, 0x81BE16CD, 0xF6B9265B, 0x6FB077E1, 0x18B74777]
    case 27 => [0x88085AE6, 0xFF0F6A70, 0x66063BCA, 0x11010B5C, 0x8F659EFF, 0xF862AE69, 0x616BFFD3, 0x166CCF45]
    case 28 => [0xA00AE278, 0xD70DD2EE, 0x4E048354, 0x3903B3C2, 0xA7672661, 0xD06016F7, 0x4969474D, 0x3E6E77DB]
    case 29 => [0xAED16A4A, 0xD9D65ADC, 0x40DF0B66, 0x37D83BF0, 0xA9BCAE53, 0xDEBB9EC5, 0x47B2CF7F, 0x30B5FFE9]
    case 30 => [0xBDBDF21C, 0xCABAC28A, 0x53B39330, 0x24B4A3A6, 0xBAD03605, 0xCDD70693, 0x54DE5729, 0x23D967BF]
    case _ => [0xB3667A2E, 0xC4614AB8, 0x5D681B02, 0x2A6F2B94, 0xB40BBE37, 0xC30C8EA1, 0x5A05DF1B, 0x2D02EF8D]
  }

  function Table(i: nat): Word
    requires i < 256
  {
    Row(i / 8)[i % 8]
  }

  /** Every entry is the sum of the head of its row and an entry of the first row. */
  lemma FirstRows(h: nat, l: nat)
    requires h < 8 && l < 8
    ensures Row(h)[l] == Xor(Row(h)[0], Row(0)[l])
  {
  }

  lemma SecondRows(h: nat, l: nat)
    requires 8 <= h < 16 && l < 8
    ensures Row(h)[l] == Xor(Row(h)[0], Row(0)[l])
  {
  }

  lemma ThirdRows(h: nat, l: nat)
    requires 16 <= h < 24 && l < 8
    ensures Row(h)[l] == Xor(Row(h)[0], Row(0)[l])
  {
  }

  lemma FourthRows(h: nat, l: nat)
    requires 24 <= h < 32 && l < 8
    ensures Row(h)[l] == Xor(Row(h)[0], Row(0)[l])
  {
  }

  /** The heads of the rows are sums of those of rows 1, 2, 4, 8 and 16. */
  lemma Heads(h: nat)
    requires h < 32
    ensures h >= 16 ==> Row(h)[0] == Xor(Row(16)[0], Row(h - 16)[0])
    ensures 8 <= h < 16 ==> Row(h)[0] == Xor(Row(8)[0], Row(h - 8)[0])
    ensures 4 <= h < 8 ==> Row(h)[0] == Xor(Row(4)[0], Row(h - 4)[0])
    ensures 2 <= h < 4 ==> Row(h)[0] == Xor(Row(2)[0], Row(h - 2)[0])
  {
  }

  /** And the entries of the first row are sums of its entries 1, 2 and 4. */
  lemma FirstRow(l: nat)
    requires l < 8
    ensures l >= 4 ==> Row(0)[l] == Xor(Row(0)[4], Row(0)[l - 4])
    ensures 2 <= l < 4 ==> Row(0)[l] == Xor(Row(0)[2], Row(0)[l - 2])
  {
  }

  /** The entries that all others are sums of. */
  lemma Basis()
    ensures Row(0)[0] == Eight(0) && Row(0)[1] == Eight(1) && Row(0)[2] == Eight(2) && Row(0)[4] == Eight(4)
    ensures Row(1)[0] == Eight(8) && Row(2)[0] == Eight(0x10) && Row(4)[0] == Eight(0x20)
    ensures Row(8)[0] == Eight(0x40) && Row(16)[0] == Eight(0x80)
  {
  }

  lemma EightXor(x: Word, y: Word)
    ensures Eight(Xor(x, y)) == Xor(Eight(x), Eight(y))
  {
    hide Bit, Xor;
    var x1, y1 := Bit(x), Bit(y);
    var x2, y2 := Bit(x1), Bit(y1);
    var x3, y3 := Bit(x2), Bit(y2);
    var x4, y4 := Bit(x3), Bit(y3);
    var x5, y5 := Bit(x4), Bit(y4);
    var x6, y6 := Bit(x5), Bit(y5);
    BitLinear(x, y);
    BitLinear(x1, y1);
    BitLinear(x2, y2);
    BitLinear(x3, y3);
    BitLinear(x4, y4);
    BitLinear(x5, y5);
    BitLinear(x6, y6);
    BitLinear(Bit(x6), Bit(y6));
  }

  lemma BothOdd(x: Word, y: Word, p: Word)
    ensures Xor(Xor(x, p), Xor(y, p)) == Xor(x, y)
  {
    hide Xor;
    XorComm(y, p);
    XorAssoc(Xor(x, p), p, y);
    XorTwice(x, p);
  }

  lemma Parity(x: Word, y: Word)
    requires x & 1 != 0 && y & 1 != 0
    ensures Xor(x, y) & 1 == 0 && x & 1 == 1 && y & 1 == 1
  {
  }

  lemma BitLinear(x: Word, y: Word)
    ensures Bit(Xor(x, y)) == Xor(Bit(x), Bit(y))
  {
    hide Down, Xor;
    if y & 1 == 0 {
      BitXor(x, y);
    } else if x & 1 == 0 {
      XorComm(x, y);
      BitXor(y, x);
      XorComm(Bit(y), Down(x));
    } else {
      Parity(x, y);
      DownXor(x, y);
      BothOdd(Down(x), Down(y), POLYNOMIAL);
    }
  }

  /** The high bit of a multiple of eight. */
  lemma HighBit(x: Word, p: Word)
    requires x <= 0xF8 && x & 7 == 0 && p in {0x10, 0x20, 0x40, 0x80} && p <= x < p + p
    ensures (x - p) & 7 == 0 && x - p < p && x == Xor(p, x - p)
    ensures (x >> 3) as nat == (p >> 3) as nat + ((x - p) >> 3) as nat
  {
  }

  lemma RowHead(x: Word)
    requires x <= 0xF8 && x & 7 == 0
    ensures (x >> 3) as nat < 32 && Row((x >> 3) as nat)[0] == Eight(x)
    decreases x as nat
  {
    hide Row, Eight, Xor;
    Basis();
    if x >= 0x10 {
      var p: Word := if x >= 0x80 then 0x80 else if x >= 0x40 then 0x40 else if x >= 0x20 then 0x20 else 0x10;
      HighBit(x, p);
      RowHead(x - p);
      Heads((x >> 3) as nat);
      EightXor(p, x - p);
    }
  }

  lemma LowBit(x: Word)
    requires x < 8
    ensures x >= 4 ==> x == Xor(4, x - 4) && x as nat == 4 + (x - 4) as nat
    ensures 2 <= x < 4 ==> x == Xor(2, x - 2) && x as nat == 2 + (x - 2) as nat
    ensures x < 2 ==> x == 0 || x == 1
  {
  }

  lemma RowZero(x: Word)
    requires x < 8
    ensures x as nat < 8 && Row(0)[x as nat] == Eight(x)
    decreases x as nat
  {
    hide Row, Eight, Xor;
    Basis();
    LowBit(x);
    if x >= 2 {
      var p: Word := if x >= 4 then 4 else 2;
      RowZero(x - p);
      FirstRow(x as nat);
      EightXor(p, x - p);
    }
  }

  lemma Parts(x: Word)
    requires x <= 0xFF
    ensures var hi, lo := x & 0xF8, x & 7;
            && hi <= 0xF8 && hi & 7 == 0 && lo < 8 && x == Xor(hi, lo)
            && (x as nat) / 8 == (hi >> 3) as nat && (x as nat) % 8 == lo as nat && x as nat < 256
  {
  }

  /** Every entry is eight bits of division of its index. */
  lemma TableEntry(x: Word)
    requires x <= 0xFF
    ensures x as nat < 256 && Table(x as nat) == Eight(x)
  {
    hide Row, Eight, Xor;
    Parts(x);
    var hi, lo := x & 0xF8, x & 7;
    RowHead(hi);
    RowZero(lo);
    EightXor(hi, lo);
    var h, l := (hi >> 3) as nat, lo as nat;
    if h < 8 {
      FirstRows(h, l);
    } else if h < 16 {
      SecondRows(h, l);
    } else if h < 24 {
      ThirdRows(h, l);
    } else {
      FourthRows(h, l);
    }
  }

  // ---------- the fast form ----------

  /** `(crc >> 8) ^ table[(crc ^ b) & 0xFF]` */
  function TableStep(c: Word, b: bv8): Word {
    Xor(Down8(c), Table(Low8(Xor(c, Wide(b))) as nat))
  }

  lemma LowByte(x: Word)
    ensures x == Xor(Low8(x), High24(x)) && Low8(High24(x)) == 0
  {
  }

  lemma HighBytes(c: Word, b: bv8)
    ensures Down8(High24(Xor(c, Wide(b)))) == Down8(c)
  {
  }

  lemma LowBits(x: Word)
    ensures Low8(x) <= 0xFF
  {
  }

  lemma TableStepIs(c: Word, b: bv8)
    ensures TableStep(c, b) == Eight(Xor(c, Wide(b)))
  {
    hide Eight, Xor, Table, Wide, Low8, High24, Down8;
    var x := Xor(c, Wide(b));
    LowByte(x);
    HighBytes(c, b);
    LowBits(x);
    TableEntry(Low8(x));
    Ahead(Low8(x), High24(x));
    XorComm(Eight(Low8(x)), Down8(c));
  }

  lemma Fed(c: Word, data: Data, i: nat)
    requires i < |data|
    ensures Register(c, data[..i + 1]) == TableStep(Register(c, data[..i]), data[i])
  {
    hide Eight, Xor, Wide, TableStep;
    assert data[..i + 1][..i] == data[..i];
    TableStepIs(Register(c, data[..i]), data[i]);
  }

  /** `mz_crc32` */
  method Crc32Fast(crc: Word, data: Data) returns (r: Word)
    ensures r == Crc32(crc, data)
  {
    hide Eight, Xor, Wide, TableStep, Register;
    var c, i := Xor(crc, ONES), 0;
    Unfed(c);
    assert data[..0] == [];
    while |data| - i >= 4
      invariant 0 <= i <= |data| && c == Register(Xor(crc, ONES), data[..i])
    {
      Fed(Xor(crc, ONES), data, i);
      c := TableStep(c, data[i]);
      Fed(Xor(crc, ONES), data, i + 1);
      c := TableStep(c, data[i + 1]);
      Fed(Xor(crc, ONES), data, i + 2);
      c := TableStep(c, data[i + 2]);
      Fed(Xor(crc, ONES), data, i + 3);
      c := TableStep(c, data[i + 3]);
      i := i + 4;
    }
    while i < |data|
      invariant 0 <= i <= |data| && c == Register(Xor(crc, ONES), data[..i])
    {
      Fed(Xor(crc, ONES), data, i);
      c := TableStep(c, data[i]);
      i := i + 1;
    }
    assert data[..|data|] == data;
    r := Xor(c, ONES);
  }

  lemma Unfed(c: Word)
    ensures Register(c, []) == c
  {
  }
}
