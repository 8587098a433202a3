/**
  crc32.c: the table-driven CRC-32 against the bit-serial register, and the register against long
  division of polynomials as section 3.2.9 of IEEE Std 802.3-2018 describes it.
*/
module Crc32 {
  import opened Bits

  type Register = bv32

  const POLYNOMIAL: Register := 0xedb88320

  // ----- the bit-serial register

  function Xor(x: Register, y: Register): Register { x ^ y }

  /** Shifts the register right by one place, feeding the polynomial back when a one falls out. */
  function Step(r: Register): Register
  {
    if Low(r) then Xor(Half(r), POLYNOMIAL) else Half(r)
  }

  function Steps(r: Register, n: nat): Register
    decreases n
  {
    if n == 0 then r else Steps(Step(r), n - 1)
  }

  /** Takes one message bit into the register. */
  function TakeBit(r: Register, bit: bool): Register
  {
    Step(if bit then Xor(r, 1) else r)
  }

  /** The register after a run of message bits. */
  function TakeAll(r: Register, bits: seq<bool>): Register
    decreases bits
  {
    if bits == [] then r else TakeAll(TakeBit(r, bits[0]), bits[1..])
  }

  /** The n low bits of x, lowest first. */
  function LowBits(x: Register, n: nat): seq<bool>
    decreases n
  {
    if n == 0 then [] else [Low(x)] + LowBits(Half(x), n - 1)
  }

  /** The bits of a buffer in the order they are transmitted: each byte from its lowest bit. */
  function MessageBits(buf: seq<bv8>): (bits: seq<bool>)
    ensures |bits| == 8 * |buf|
  {
    if buf == [] then [] else LowBitsLength(Widen(buf[0]), 8); LowBits(Widen(buf[0]), 8) + MessageBits(buf[1..])
  }

  lemma {:induction false} LowBitsLength(x: Register, n: nat)
    ensures |LowBits(x, n)| == n
    decreases n
  {
    if n > 0 { LowBitsLength(Half(x), n - 1); }
  }

  // ----- the table form

  /** The two low bits of i pick one of four. */
  function Pick(i: Register, a: Register, b: Register, c: Register, d: Register): Register
  {
    if i & 2 == 0 then (if i & 1 == 0 then a else b) else (if i & 1 == 0 then c else d)
  }

  /** crc32_tab, in index order. */
  function Crc32Tab(i: Register): Register
  {
    Pick(i >> 6,
      Pick(i >> 4,
        Pick(i >> 2,
          Pick(i, 0x00000000, 0x77073096, 0xee0e612c, 0x990951ba),
          Pick(i, 0x076dc419, 0x706af48f, 0xe963a535, 0x9e6495a3),
          Pick(i, 0x0edb8832, 0x79dcb8a4, 0xe0d5e91e, 0x97d2d988),
          Pick(i, 0x09b64c2b, 0x7eb17cbd, 0xe7b82d07, 0x90bf1d91)),
        Pick(i >> 2,
          Pick(i, 0x1db71064, 0x6ab020f2, 0xf3b97148, 0x84be41de),
          Pick(i, 0x1adad47d, 0x6ddde4eb, 0xf4d4b551, 0x83d385c7),
          Pick(i, 0x136c9856, 0x646ba8c0, 0xfd62f97a, 0x8a65c9ec),
          Pick(i, 0x14015c4f, 0x63066cd9, 0xfa0f3d63, 0x8d080df5)),
        Pick(i >> 2,
          Pick(i, 0x3b6e20c8, 0x4c69105e, 0xd56041e4, 0xa2677172),
          Pick(i, 0x3c03e4d1, 0x4b04d447, 0xd20d85fd, 0xa50ab56b),
          Pick(i, 0x35b5a8fa, 0x42b2986c, 0xdbbbc9d6, 0xacbcf940),
          Pick(i, 0x32d86ce3, 0x45df5c75, 0xdcd60dcf, 0xabd13d59)),
        Pick(i >> 2,
          Pick(i, 0x26d930ac, 0x51de003a, 0xc8d75180, 0xbfd06116),
          Pick(i, 0x21b4f4b5, 0x56b3c423, 0xcfba9599, 0xb8bda50f),
          Pick(i, 0x2802b89e, 0x5f058808, 0xc60cd9b2, 0xb10be924),
          Pick(i, 0x2f6f7c87, 0x58684c11, 0xc1611dab, 0xb6662d3d))),
      Pick(i >> 4,
        Pick(i >> 2,
          Pick(i, 0x76dc4190, 0x01db7106, 0x98d220bc, 0xefd5102a),
          Pick(i, 0x71b18589, 0x06b6b51f, 0x9fbfe4a5, 0xe8b8d433),
          Pick(i, 0x7807c9a2, 0x0f00f934, 0x9609a88e, 0xe10e9818),
          Pick(i, 0x7f6a0dbb, 0x086d3d2d, 0x91646c97, 0xe6635c01)),
        Pick(i >> 2,
          Pick(i, 0x6b6b51f4, 0x1c6c6162, 0x856530d8, 0xf262004e),
          Pick(i, 0x6c0695ed, 0x1b01a57b, 0x8208f4c1, 0xf50fc457),
          Pick(i, 0x65b0d9c6, 0x12b7e950, 0x8bbeb8ea, 0xfcb9887c),
          Pick(i, 0x62dd1ddf, 0x15da2d49, 0x8cd37cf3, 0xfbd44c65)),
        Pick(i >> 2,
          Pick(i, 0x4db26158, 0x3ab551ce, 0xa3bc0074, 0xd4bb30e2),
          Pick(i, 0x4adfa541, 0x3dd895d7, 0xa4d1c46d, 0xd3d6f4fb),
          Pick(i, 0x4369e96a, 0x346ed9fc, 0xad678846, 0xda60b8d0),
          Pick(i, 0x44042d73, 0x33031de5, 0xaa0a4c5f, 0xdd0d7cc9)),
        Pick(i >> 2,
          Pick(i, 0x5005713c, 0x270241aa, 0xbe0b1010, 0xc90c2086),
          Pick(i, 0x5768b525, 0x206f85b3, 0xb966d409, 0xce61e49f),
          Pick(i, 0x5edef90e, 0x29d9c998, 0xb0d09822, 0xc7d7a8b4),
          Pick(i, 0x59b33d17, 0x2eb40d81, 0xb7bd5c3b, 0xc0ba6cad))),
      Pick(i >> 4,
        Pick(i >> 2,
          Pick(i, 0xedb88320, 0x9abfb3b6, 0x03b6e20c, 0x74b1d29a),
          Pick(i, 0xead54739, 0x9dd277af, 0x04db2615, 0x73dc1683),
          Pick(i, 0xe3630b12, 0x94643b84, 0x0d6d6a3e, 0x7a6a5aa8),
          Pick(i, 0xe40ecf0b, 0x9309ff9d, 0x0a00ae27, 0x7d079eb1)),
        Pick(i >> 2,
          Pick(i, 0xf00f9344, 0x8708a3d2, 0x1e01f268, 0x6906c2fe),
          Pick(i, 0xf762575d, 0x806567cb, 0x196c3671, 0x6e6b06e7),
          Pick(i, 0xfed41b76, 0x89d32be0, 0x10da7a5a, 0x67dd4acc),
          Pick(i, 0xf9b9df6f, 0x8ebeeff9, 0x17b7be43, 0x60b08ed5)),
        Pick(i >> 2,
          Pick(i, 0xd6d6a3e8, 0xa1d1937e, 0x38d8c2c4, 0x4fdff252),
          Pick(i, 0xd1bb67f1, 0xa6bc5767, 0x3fb506dd, 0x48b2364b),
          Pick(i, 0xd80d2bda, 0xaf0a1b4c, 0x36034af6, 0x41047a60),
          Pick(i, 0xdf60efc3, 0xa867df55, 0x316e8eef, 0x4669be79)),
        Pick(i >> 2,
          Pick(i, 0xcb61b38c, 0xbc66831a, 0x256fd2a0, 0x5268e236),
          Pick(i, 0xcc0c7795, 0xbb0b4703, 0x220216b9, 0x5505262f),
          Pick(i, 0xc5ba3bbe, 0xb2bd0b28, 0x2bb45a92, 0x5cb36a04),
          Pick(i, 0xc2d7ffa7, 0xb5d0cf31, 0x2cd99e8b, 0x5bdeae1d))),
      Pick(i >> 4,
        Pick(i >> 2,
          Pick(i, 0x9b64c2b0, 0xec63f226, 0x756aa39c, 0x026d930a),
          Pick(i, 0x9c0906a9, 0xeb0e363f, 0x72076785, 0x05005713),
          Pick(i, 0x95bf4a82, 0xe2b87a14, 0x7bb12bae, 0x0cb61b38),
          Pick(i, 0x92d28e9b, 0xe5d5be0d, 0x7cdcefb7, 0x0bdbdf21)),
        Pick(i >> 2,
          Pick(i, 0x86d3d2d4, 0xf1d4e242, 0x68ddb3f8, 0x1fda836e),
          Pick(i, 0x81be16cd, 0xf6b9265b, 0x6fb077e1, 0x18b74777),
          Pick(i, 0x88085ae6, 0xff0f6a70, 0x66063bca, 0x11010b5c),
          Pick(i, 0x8f659eff, 0xf862ae69, 0x616bffd3, 0x166ccf45)),
        Pick(i >> 2,
          Pick(i, 0xa00ae278, 0xd70dd2ee, 0x4e048354, 0x3903b3c2),
          Pick(i, 0xa7672661, 0xd06016f7, 0x4969474d, 0x3e6e77db),
          Pick(i, 0xaed16a4a, 0xd9d65adc, 0x40df0b66, 0x37d83bf0),
          Pick(i, 0xa9bcae53, 0xdebb9ec5, 0x47b2cf7f, 0x30b5ffe9)),
        Pick(i >> 2,
          Pick(i, 0xbdbdf21c, 0xcabac28a, 0x53b39330, 0x24b4a3a6),
          Pick(i, 0xbad03605, 0xcdd70693, 0x54de5729, 0x23d967bf),
          Pick(i, 0xb3667a2e, 0xc4614ab8, 0x5d681b02, 0x2a6f2b94),
          Pick(i, 0xb40bbe37, 0xc30c8ea1, 0x5a05df1b, 0x2d02ef8d))))
  }

  /** crc32_tab[(crc ^ b) & 0xFF] ^ (crc >> 8). */
  function TableStep(crc: Register, b: bv8): Register
  {
    Xor(Crc32Tab(LowByte(Xor(crc, Widen(b)))), HighPart(crc))
  }

  function Widen(b: bv8): Register { b as bv32 }

  function LowByte(r: Register): Register { r & 0xFF }

  function HighPart(r: Register): Register { r >> 8 }

  function EightSteps(r: Register): Register
  {
    Step(Step(Step(Step(Step(Step(Step(Step(r))))))))
  }

  // ----- one register step is linear and can be undone

  lemma XorHalf(x: Register, y: Register)
    ensures Half(Xor(x, y)) == Xor(Half(x), Half(y))
  {}

  lemma XorLow(x: Register, y: Register)
    ensures Low(Xor(x, y)) <==> Low(x) != Low(y)
  {}

  lemma XorCommutes(x: Register, y: Register)
    ensures Xor(x, y) == Xor(y, x)
  {}

  lemma XorAssociates(x: Register, y: Register, z: Register)
    ensures Xor(Xor(x, y), z) == Xor(x, Xor(y, z))
  {}

  lemma XorCancels(x: Register, y: Register)
    ensures Xor(Xor(x, y), y) == x
  {}

  lemma XorInjective(x: Register, y: Register, y': Register)
    requires Xor(x, y) == Xor(x, y')
    ensures y == y'
  {}

  lemma StepLinear(x: Register, y: Register)
    ensures Step(Xor(x, y)) == Xor(Step(x), Step(y))
  {
    hide Xor, Half, Low;
    var a, b, p := Half(x), Half(y), POLYNOMIAL;
    XorHalf(x, y);
    XorLow(x, y);
    XorCommutes(b, p);
    XorAssociates(a, p, b);
    XorAssociates(a, b, p);
    XorAssociates(Xor(a, p), b, p);
    XorCancels(Xor(a, b), p);
  }

  lemma {:induction false} StepsLinear(x: Register, y: Register, n: nat)
    ensures Steps(Xor(x, y), n) == Xor(Steps(x, n), Steps(y, n))
    decreases n
  {
    hide Xor, Step;
    if n > 0 {
      StepLinear(x, y);
      StepsLinear(Step(x), Step(y), n - 1);
    }
  }

  lemma EightLinear(x: Register, y: Register)
    ensures EightSteps(Xor(x, y)) == Xor(EightSteps(x), EightSteps(y))
  {
    hide Xor, Step;
    StepLinear(x, y);
    var x1, y1 := Step(x), Step(y);
    StepLinear(x1, y1);
    var x2, y2 := Step(x1), Step(y1);
    StepLinear(x2, y2);
    var x3, y3 := Step(x2), Step(y2);
    StepLinear(x3, y3);
    var x4, y4 := Step(x3), Step(y3);
    StepLinear(x4, y4);
    var x5, y5 := Step(x4), Step(y4);
    StepLinear(x5, y5);
    var x6, y6 := Step(x5), Step(y5);
    StepLinear(x6, y6);
    StepLinear(Step(x6), Step(y6));
  }

  // ----- the entries of the table

  /** The entries for the single bits. */
  lemma BitEntries()
    ensures EightSteps(0) == 0
    ensures EightSteps(0x01) == 0x77073096 && EightSteps(0x02) == 0xee0e612c
    ensures EightSteps(0x04) == 0x076dc419 && EightSteps(0x08) == 0x0edb8832
    ensures EightSteps(0x10) == 0x1db71064 && EightSteps(0x20) == 0x3b6e20c8
    ensures EightSteps(0x40) == 0x76dc4190 && EightSteps(0x80) == 0xedb88320
  {}

  /** All ones if i has bit k, else zero. */
  function Mask(i: Register, k: bv5): Register { 0 - ((i >> k) & 1) }

  lemma Masks(i: Register)
    ensures Mask(i, 0) == if And(i, 0x01) == 0 then 0 else ALL_ONES
    ensures Mask(i, 1) == if And(i, 0x02) == 0 then 0 else ALL_ONES
    ensures Mask(i, 2) == if And(i, 0x04) == 0 then 0 else ALL_ONES
    ensures Mask(i, 3) == if And(i, 0x08) == 0 then 0 else ALL_ONES
    ensures Mask(i, 4) == if And(i, 0x10) == 0 then 0 else ALL_ONES
    ensures Mask(i, 5) == if And(i, 0x20) == 0 then 0 else ALL_ONES
    ensures Mask(i, 6) == if And(i, 0x40) == 0 then 0 else ALL_ONES
    ensures Mask(i, 7) == if And(i, 0x80) == 0 then 0 else ALL_ONES
  {}

  lemma AllMask(e: Register)
    ensures And(ALL_ONES, e) == e && And(0, e) == 0
  {}

  lemma BitSteps(i: Register, mask: Register, bit: Register, e: Register)
    requires EightSteps(0) == 0 && EightSteps(bit) == e && (And(i, bit) == 0 || And(i, bit) == bit)
    requires mask == if And(i, bit) == 0 then 0 else ALL_ONES
    ensures EightSteps(And(i, bit)) == And(mask, e)
  {
    AllMask(e);
    hide EightSteps, And;
  }

  /** The entries of the four low bits that i has, put together. */
  function LowEntries(i: Register): Register
  {
    Xor(Xor(And(Mask(i, 0), 0x77073096), And(Mask(i, 1), 0xee0e612c)),
        Xor(And(Mask(i, 2), 0x076dc419), And(Mask(i, 3), 0x0edb8832)))
  }

  function HighEntries(i: Register): Register
  {
    Xor(Xor(And(Mask(i, 4), 0x1db71064), And(Mask(i, 5), 0x3b6e20c8)),
        Xor(And(Mask(i, 6), 0x76dc4190), And(Mask(i, 7), 0xedb88320)))
  }

  lemma BitsAlone(i: Register)
    ensures And(i, 0x01) in {0, 0x01} && And(i, 0x02) in {0, 0x02} && And(i, 0x04) in {0, 0x04}
    ensures And(i, 0x08) in {0, 0x08} && And(i, 0x10) in {0, 0x10} && And(i, 0x20) in {0, 0x20}
    ensures And(i, 0x40) in {0, 0x40} && And(i, 0x80) in {0, 0x80}
  {}

  lemma ByteBits(i: Register)
    requires i < 256
    ensures i == Xor(Xor(Xor(And(i, 0x01), And(i, 0x02)), Xor(And(i, 0x04), And(i, 0x08))),
                     Xor(Xor(And(i, 0x10), And(i, 0x20)), Xor(And(i, 0x40), And(i, 0x80))))
  {}

  lemma LowBitSteps(i: Register)
    ensures EightSteps(Xor(Xor(And(i, 0x01), And(i, 0x02)), Xor(And(i, 0x04), And(i, 0x08)))) == LowEntries(i)
  {
    BitsAlone(i);
    BitEntries();
    Masks(i);
    hide EightSteps, Xor, Mask, And;
    EightLinear(Xor(And(i, 0x01), And(i, 0x02)), Xor(And(i, 0x04), And(i, 0x08)));
    EightLinear(And(i, 0x01), And(i, 0x02));
    EightLinear(And(i, 0x04), And(i, 0x08));
    BitSteps(i, Mask(i, 0), 0x01, 0x77073096);
    BitSteps(i, Mask(i, 1), 0x02, 0xee0e612c);
    BitSteps(i, Mask(i, 2), 0x04, 0x076dc419);
    BitSteps(i, Mask(i, 3), 0x08, 0x0edb8832);
  }

  lemma HighBitSteps(i: Register)
    ensures EightSteps(Xor(Xor(And(i, 0x10), And(i, 0x20)), Xor(And(i, 0x40), And(i, 0x80)))) == HighEntries(i)
  {
    BitsAlone(i);
    BitEntries();
    Masks(i);
    hide EightSteps, Xor, Mask, And;
    EightLinear(Xor(And(i, 0x10), And(i, 0x20)), Xor(And(i, 0x40), And(i, 0x80)));
    EightLinear(And(i, 0x10), And(i, 0x20));
    EightLinear(And(i, 0x40), And(i, 0x80));
    BitSteps(i, Mask(i, 4), 0x10, 0x1db71064);
    BitSteps(i, Mask(i, 5), 0x20, 0x3b6e20c8);
    BitSteps(i, Mask(i, 6), 0x40, 0x76dc4190);
    BitSteps(i, Mask(i, 7), 0x80, 0xedb88320);
  }

  /** The table holds the entries put together from those of the single bits. */
  lemma TableOfBits(i: Register)
    requires i < 256
    ensures Crc32Tab(i) == Xor(LowEntries(i), HighEntries(i))
  {}

  /** Every table entry is its index after eight steps. */
  lemma TableEntries(i: Register)
    requires i < 256
    ensures Crc32Tab(i) == EightSteps(i)
  {
    TableOfBits(i);
    ByteBits(i);
    LowBitSteps(i);
    HighBitSteps(i);
    hide *;
    EightLinear(Xor(Xor(And(i, 0x01), And(i, 0x02)), Xor(And(i, 0x04), And(i, 0x08))),
                Xor(Xor(And(i, 0x10), And(i, 0x20)), Xor(And(i, 0x40), And(i, 0x80))));
  }

  lemma StepInjective(x: Register, y: Register)
    requires Step(x) == Step(y)
    ensures x == y
  {}

  lemma {:induction false} StepsInjective(x: Register, y: Register, n: nat)
    requires Steps(x, n) == Steps(y, n)
    ensures x == y
    decreases n
  {
    if n > 0 {
      StepsInjective(Step(x), Step(y), n - 1);
      StepInjective(x, y);
    }
  }

  lemma SplitLow(x: Register)
    ensures x == Xor(Double(Half(x)), if Low(x) then 1 else 0)
    ensures Half(Double(Half(x))) == Half(x) && !Low(Double(Half(x)))
  {}

  lemma XorZero(x: Register)
    ensures Xor(x, 0) == x
  {}

  /** Up to 32 message bits as one word, the first bit lowest. */
  function PackBits(bits: seq<bool>): Register
  {
    if bits == [] then 0 else Xor(Double(PackBits(bits[1..])), if bits[0] then 1 else 0)
  }

  lemma {:induction false} PackBitsSmall(bits: seq<bool>)
    requires |bits| <= 31
    ensures PackBits(bits) < Idx2Bit(|bits|) <= 0x80000000
  {
    if |bits| == 31 { Idx2Bit31(); } else { Idx2BitOneBit(|bits|); }
    if bits != [] {
      PackBitsSmall(bits[1..]);
      Idx2BitOneBit(|bits| - 1);
      ShiftBound(PackBits(bits[1..]), if bits[0] then 1 else 0, Idx2Bit(|bits| - 1));
    }
  }

  lemma ShiftBound(x: Register, bit: Register, c: Register)
    requires x < c < 0x80000000 && bit <= 1
    ensures Xor(Double(x), bit) < Double(c)
  {}

  lemma Unshift(x: Register, bit: bool)
    requires x < 0x80000000
    ensures Half(Xor(Double(x), if bit then 1 else 0)) == x
    ensures Low(Xor(Double(x), if bit then 1 else 0)) <==> bit
  {}

  lemma PackBitsTail(bits: seq<bool>)
    requires 1 <= |bits| <= 32
    ensures Half(PackBits(bits)) == PackBits(bits[1..])
    ensures Low(PackBits(bits)) <==> bits[0]
  {
    PackBitsSmall(bits[1..]);
    Unshift(PackBits(bits[1..]), bits[0]);
  }

  /** Taking a bit and then adding in the half of the rest is one step on the sum. */
  lemma TakeBitOfSum(r: Register, x: Register)
    ensures Step(Xor(r, x)) == Xor(TakeBit(r, Low(x)), Half(x))
  {
    var bit: Register := if Low(x) then 1 else 0;
    var rest := Double(Half(x));
    SplitLow(x);
    XorCommutes(rest, bit);
    XorAssociates(r, bit, rest);
    StepLinear(Xor(r, bit), rest);
    XorZero(r);
  }

  /** Up to 32 message bits may be taken one by one, or added in at once before stepping. */
  lemma {:induction false} TakeAtOnce(r: Register, bits: seq<bool>)
    requires |bits| <= 32
    ensures TakeAll(r, bits) == Steps(Xor(r, PackBits(bits)), |bits|)
    decreases bits
  {
    hide Xor, Step, TakeBit, Half, Low, Double;
    if bits == [] {
      XorZero(r);
    } else {
      PackBitsTail(bits);
      TakeBitOfSum(r, PackBits(bits));
      TakeAtOnce(TakeBit(r, bits[0]), bits[1..]);
    }
  }

  lemma {:induction false} PackBitsInjective(a: seq<bool>, b: seq<bool>)
    requires |a| == |b| <= 32 && PackBits(a) == PackBits(b)
    ensures a == b
  {
    hide Xor, Half, Low, Double;
    if a != [] {
      PackBitsTail(a);
      PackBitsTail(b);
      PackBitsInjective(a[1..], b[1..]);
      assert a == [a[0]] + a[1..] && b == [b[0]] + b[1..];
    }
  }

  lemma {:induction false} PackLowBits(x: Register, n: nat)
    requires ShiftRight(x, n) == 0
    ensures |LowBits(x, n)| == n && PackBits(LowBits(x, n)) == x
    decreases n
  {
    hide Xor, Half, Low, Double;
    if n > 0 {
      PackLowBits(Half(x), n - 1);
      SplitLow(x);
    }
  }

  lemma ByteFits(b: bv8)
    ensures ShiftRight(Widen(b), 8) == 0
  {
    var x := Widen(b);
    assert ShiftRight(x, 8) == ShiftRight(Half(Half(x)), 6);
    assert ShiftRight(x, 8) == ShiftRight(Half(Half(Half(Half(x)))), 4);
    assert ShiftRight(x, 8) == ShiftRight(Half(Half(Half(Half(Half(Half(x)))))), 2);
    assert ShiftRight(x, 8) == ShiftRight(Half(Half(Half(Half(Half(Half(Half(x))))))), 1);
    EightHalves(b);
  }

  lemma EightHalves(b: bv8)
    ensures Half(Half(Half(Half(Half(Half(Half(Half(Widen(b))))))))) == 0
  {}

  // ----- the table form is the bit-serial register

  lemma {:induction false} TakeAllConcat(r: Register, a: seq<bool>, b: seq<bool>)
    ensures TakeAll(r, a + b) == TakeAll(TakeAll(r, a), b)
    decreases a
  {
    hide TakeBit;
    if a == [] {
      assert a + b == b;
    } else {
      assert (a + b)[1..] == a[1..] + b;
      TakeAllConcat(TakeBit(r, a[0]), a[1..], b);
    }
  }

  lemma {:induction false} MessageBitsConcat(a: seq<bv8>, b: seq<bv8>)
    ensures MessageBits(a + b) == MessageBits(a) + MessageBits(b)
  {
    hide LowBits;
    if a == [] {
      assert a + b == b;
    } else {
      assert (a + b)[1..] == a[1..] + b;
      MessageBitsConcat(a[1..], b);
    }
  }

  lemma LowByteFirst(v: Register)
    ensures EightSteps(v) == Xor(EightSteps(LowByte(v)), HighPart(v))
  {
    hide Xor, Step, EightSteps, LowByte, HighPart;
    var high := v & 0xFFFFFF00;
    SplitByte(v);
    StepsLinear(LowByte(v), high, 8);
    StepsIsEight(LowByte(v));
    StepsIsEight(high);
    StepsIsEight(v);
    HighSteps(v);
  }

  lemma SplitByte(v: Register)
    ensures v == Xor(LowByte(v), v & 0xFFFFFF00)
  {}

  lemma HighSteps(v: Register)
    ensures EightSteps(v & 0xFFFFFF00) == HighPart(v)
  {}

  lemma StepsIsEight(r: Register)
    ensures Steps(r, 8) == EightSteps(r)
  {
    hide Step;
    assert Steps(r, 8) == Steps(Step(Step(Step(Step(r)))), 4);
  }

  /** One table lookup is eight steps with the byte added in. */
  lemma TableLookup(crc: Register, b: bv8)
    ensures TableStep(crc, b) == EightSteps(Xor(crc, Widen(b)))
  {
    hide Xor, Crc32Tab, EightSteps, LowByte, HighPart, Widen;
    var v := Xor(crc, Widen(b));
    LowByteFirst(v);
    LowByteSmall(v);
    TableEntries(LowByte(v));
    ShiftedOut(crc, b);
  }

  lemma LowByteSmall(v: Register)
    ensures LowByte(v) < 256
  {}

  lemma ShiftedOut(crc: Register, b: bv8)
    ensures HighPart(Xor(crc, Widen(b))) == HighPart(crc)
  {}

  /** Which takes the eight bits of that byte. */
  lemma TableStepTakesByte(crc: Register, b: bv8)
    ensures TableStep(crc, b) == TakeAll(crc, LowBits(Widen(b), 8))
  {
    hide *;
    ByteFits(b);
    PackLowBits(Widen(b), 8);
    TakeAtOnce(crc, LowBits(Widen(b), 8));
    StepsIsEight(Xor(crc, Widen(b)));
    TableLookup(crc, b);
  }

  // ----- the functions of crc32.c

  method Crc32Append(crc: Register, buf: seq<bv8>) returns (r: Register)
    ensures r == TakeAll(crc, MessageBits(buf))
  {
    hide LowBits, TableStep;
    r := crc;
    var i := 0;
    assert buf[..0] == [];
    assert MessageBits([]) == [];
    assert TakeAll(crc, []) == crc;
    while i < |buf|
      invariant 0 <= i <= |buf| && r == TakeAll(crc, MessageBits(buf[..i]))
    {
      TakeByte(crc, buf[..i], buf[i]);
      assert buf[..i + 1] == buf[..i] + [buf[i]];
      r := TableStep(r, buf[i]);
      i := i + 1;
    }
    assert buf[..|buf|] == buf;
  }

  lemma TakeByte(crc: Register, buf: seq<bv8>, b: bv8)
    ensures TakeAll(crc, MessageBits(buf + [b])) == TableStep(TakeAll(crc, MessageBits(buf)), b)
  {
    hide LowBits, TableStep;
    MessageBitsConcat(buf, [b]);
    assert [b][1..] == [];
    assert MessageBits([b]) == LowBits(Widen(b), 8) + [];
    assert MessageBits([b]) == LowBits(Widen(b), 8);
    TakeAllConcat(crc, MessageBits(buf), MessageBits([b]));
    TableStepTakesByte(TakeAll(crc, MessageBits(buf)), b);
  }

  const ALL_ONES: Register := 0xFFFFFFFF

  function Crc32Start(): Register { ALL_ONES }

  function Crc32Finish(crc: Register): Register { Xor(crc, ALL_ONES) }

  /** The CRC of a buffer, bit by bit. */
  function Crc(buf: seq<bv8>): Register
  {
    Crc32Finish(TakeAll(Crc32Start(), MessageBits(buf)))
  }

  method Crc32(buf: seq<bv8>) returns (r: Register)
    ensures r == Crc(buf)
  {
    r := Crc32Append(ALL_ONES, buf);
    r := Xor(r, ALL_ONES);
  }

  function Flatten(parts: seq<seq<bv8>>): seq<bv8>
  {
    if parts == [] then [] else Flatten(parts[..|parts| - 1]) + parts[|parts| - 1]
  }

  /** The register after one part more. */
  lemma PartTaken(parts: seq<seq<bv8>>, i: nat)
    requires i < |parts|
    ensures TakeAll(TakeAll(ALL_ONES, MessageBits(Flatten(parts[..i]))), MessageBits(parts[i])) ==
            TakeAll(ALL_ONES, MessageBits(Flatten(parts[..i + 1])))
  {
    assert parts[..i + 1][..i] == parts[..i];
    hide TakeAll, MessageBits;
    MessageBitsConcat(Flatten(parts[..i]), parts[i]);
    TakeAllConcat(ALL_ONES, MessageBits(Flatten(parts[..i])), MessageBits(parts[i]));
  }

  /** The CRC built up over several buffers with start, append and finish. */
  method Crc32OfParts(parts: seq<seq<bv8>>) returns (r: Register)
    ensures r == Crc(Flatten(parts))
  {
    r := Crc32Start();
    var i := 0;
    assert TakeAll(r, MessageBits(Flatten(parts[..0]))) == r;
    hide TakeAll, MessageBits, Flatten;
    while i < |parts|
      invariant 0 <= i <= |parts| && r == TakeAll(ALL_ONES, MessageBits(Flatten(parts[..i])))
    {
      PartTaken(parts, i);
      r := Crc32Append(r, parts[i]);
      i := i + 1;
    }
    assert parts[..|parts|] == parts;
    r := Crc32Finish(r);
  }

  // ----- error detection

  lemma {:induction false} TakeAllInjective(r: Register, r': Register, bits: seq<bool>)
    requires TakeAll(r, bits) == TakeAll(r', bits)
    ensures r == r'
    decreases bits
  {
    if bits != [] {
      TakeAllInjective(TakeBit(r, bits[0]), TakeBit(r', bits[0]), bits[1..]);
      TakeBitInjective(r, r', bits[0]);
    }
  }

  lemma TakeBitInjective(r: Register, r': Register, bit: bool)
    requires TakeBit(r, bit) == TakeBit(r', bit)
    ensures r == r'
  {}

  lemma {:induction false} MessageBitsInjective(a: seq<bv8>, b: seq<bv8>)
    requires |a| == |b| && MessageBits(a) == MessageBits(b)
    ensures a == b
  {
    hide LowBits, ShiftRight, PackBits;
    if a != [] {
      var x, y := LowBits(Widen(a[0]), 8), LowBits(Widen(b[0]), 8);
      LowBitsLength(Widen(a[0]), 8);
      LowBitsLength(Widen(b[0]), 8);
      assert MessageBits(a)[..8] == x && MessageBits(b)[..8] == y;
      assert MessageBits(a)[8..] == MessageBits(a[1..]) && MessageBits(b)[8..] == MessageBits(b[1..]);
      MessageBitsInjective(a[1..], b[1..]);
      ByteFits(a[0]);
      ByteFits(b[0]);
      PackLowBits(Widen(a[0]), 8);
      PackLowBits(Widen(b[0]), 8);
      WidenInjective(a[0], b[0]);
      assert a == [a[0]] + a[1..] && b == [b[0]] + b[1..];
    }
  }

  lemma WidenInjective(a: bv8, b: bv8)
    requires Widen(a) == Widen(b)
    ensures a == b
  {}

  /** Buffers of equal length that differ only inside a window of four consecutive bytes never share a CRC. */
  lemma BurstDetected(before: seq<bv8>, u: seq<bv8>, v: seq<bv8>, after: seq<bv8>)
    requires |u| == |v| <= 4 && u != v
    ensures Crc(before + u + after) != Crc(before + v + after)
  {
    hide MessageBits, Step, TakeBit;
    var r := TakeAll(ALL_ONES, MessageBits(before));
    CrcOfThree(before, u, after);
    CrcOfThree(before, v, after);
    var a, b := MessageBits(u), MessageBits(v);
    if Crc(before + u + after) == Crc(before + v + after) {
      FinishInjective(TakeAll(TakeAll(r, a), MessageBits(after)), TakeAll(TakeAll(r, b), MessageBits(after)));
      TakeAllInjective(TakeAll(r, a), TakeAll(r, b), MessageBits(after));
      TakeAtOnce(r, a);
      TakeAtOnce(r, b);
      StepsInjective(Xor(r, PackBits(a)), Xor(r, PackBits(b)), |a|);
      XorInjective(r, PackBits(a), PackBits(b));
      PackBitsInjective(a, b);
      MessageBitsInjective(u, v);
    }
  }

  lemma FinishInjective(x: Register, y: Register)
    requires Crc32Finish(x) == Crc32Finish(y)
    ensures x == y
  {}

  lemma CrcOfThree(a: seq<bv8>, b: seq<bv8>, c: seq<bv8>)
    ensures Crc(a + b + c) ==
            Crc32Finish(TakeAll(TakeAll(TakeAll(ALL_ONES, MessageBits(a)), MessageBits(b)), MessageBits(c)))
  {
    hide MessageBits, TakeAll, Xor;
    MessageBitsConcat(a + b, c);
    MessageBitsConcat(a, b);
    TakeAllConcat(ALL_ONES, MessageBits(a + b), MessageBits(c));
    TakeAllConcat(ALL_ONES, MessageBits(a), MessageBits(b));
  }

  // ----- long division of polynomials over GF(2), highest coefficient first

  /** The powers of x that make up G(x). */
  predicate InGenerator(e: int)
  {
    e == 32 || e == 26 || e == 23 || e == 22 || e == 16 || e == 12 || e == 11 || e == 10 ||
    e == 8 || e == 7 || e == 5 || e == 4 || e == 2 || e == 1 || e == 0
  }

  /** G(x), all 33 coefficients. */
  function Generator(): (g: seq<bool>)
    ensures |g| == 33
  {
    seq(33, k => InGenerator(32 - k))
  }

  /** One step of long division: take G(x) away if the leading coefficient is one, and drop that coefficient. */
  function Reduce(d: seq<bool>): (d': seq<bool>)
    requires |d| > 32
    ensures |d'| == |d| - 1
  {
    if d[0] then seq(|d| - 1, i requires 0 <= i < |d| - 1 => d[i + 1] != (i < 32 && Generator()[i + 1])) else d[1..]
  }

  /** The remainder of d(x) divided by G(x). */
  function Remainder(d: seq<bool>): seq<bool>
    decreases |d|
  {
    if |d| <= 32 then d else Remainder(Reduce(d))
  }

  /** The register as a polynomial of degree at most 31: its lowest bit is the coefficient of x^31. */
  function Coefficients(r: Register): (c: seq<bool>)
    ensures |c| == 32
  {
    seq(32, k requires 0 <= k => Bit(r, k))
  }

  /** Adds c to the leading 32 coefficients of d. */
  function AddHead(c: seq<bool>, d: seq<bool>): (s: seq<bool>)
    requires |c| == 32 && |d| >= 32
    ensures |s| == |d|
  {
    seq(|d|, i requires 0 <= i < |d| => d[i] != (i < 32 && c[i]))
  }

  lemma {:induction false} BitXor(x: Register, y: Register, j: nat)
    ensures Bit(Xor(x, y), j) <==> Bit(x, j) != Bit(y, j)
    decreases j
  {
    hide Xor, Half, Low;
    XorHalf(x, y);
    XorLow(x, y);
    if j > 0 { BitXor(Half(x), Half(y), j - 1); }
  }

  /** Bits k to k + n - 1 of a word, shifted down to x, are the coefficients of G(x) from x^(31 - k) down. */
  predicate GeneratorBits(x: Register, k: nat, n: nat)
    requires k + n <= 32
    decreases n
  {
    n == 0 || ((Low(x) <==> InGenerator(31 - k)) && GeneratorBits(Half(x), k + 1, n - 1))
  }

  lemma {:induction false} GeneratorBit(x: Register, k: nat, n: nat, j: nat)
    requires k + n <= 32 && GeneratorBits(x, k, n) && j < n
    ensures Bit(x, j) <==> InGenerator(31 - k - j)
    decreases n
  {
    if j > 0 { GeneratorBit(Half(x), k + 1, n - 1, j - 1); }
  }

  lemma GeneratorHighHalf()
    ensures GeneratorBits(0xedb8, 16, 16)
  {
    assert GeneratorBits(0xe, 28, 4);
    assert GeneratorBits(0xed, 24, 8);
    assert GeneratorBits(0xedb, 20, 12);
  }

  lemma GeneratorLowHalf()
    ensures GeneratorBits(0xedb88320, 0, 32)
  {
    GeneratorHighHalf();
    assert GeneratorBits(0xedb88, 12, 20);
    assert GeneratorBits(0xedb883, 8, 24);
    assert GeneratorBits(0xedb8832, 4, 28);
    assert GeneratorBits(0x3b6e20c8, 2, 30);
  }

  /** The reflected constant 0xedb88320 holds the coefficients of G(x) below x^32. */
  lemma PolynomialIsGenerator(k: nat)
    requires k < 32
    ensures Generator()[k + 1] == Bit(POLYNOMIAL, k)
  {
    GeneratorLowHalf();
    GeneratorBit(POLYNOMIAL, 0, 32, k);
  }

  /** The leading coefficient of the dividend is the bit that falls out of the register. */
  lemma ReduceIsTakeBit(r: Register, bit: bool, rest: seq<bool>)
    requires |rest| >= 32
    ensures Reduce(AddHead(Coefficients(r), [bit] + rest)) == AddHead(Coefficients(TakeBit(r, bit)), rest)
  {
    hide Xor, Half, Low, Generator;
    var d := AddHead(Coefficients(r), [bit] + rest);
    var r' := TakeBit(r, bit);
    forall i | 0 <= i < |rest| ensures Reduce(d)[i] == AddHead(Coefficients(r'), rest)[i] {
      if i < 32 {
        CoefficientOfTakeBit(r, bit, i);
        PolynomialIsGenerator(i);
        if i == 31 { BitBelow32(r, 32); }
      }
    }
  }

  lemma CoefficientOfTakeBit(r: Register, bit: bool, i: nat)
    ensures Bit(TakeBit(r, bit), i) <==> Bit(r, i + 1) != (Low(r) != bit && Bit(POLYNOMIAL, i))
  {
    FlipLow(r);
    BitXor(Half(r), POLYNOMIAL, i);
  }

  lemma FlipLow(r: Register)
    ensures Half(Xor(r, 1)) == Half(r) && (Low(Xor(r, 1)) <==> !Low(r))
  {}

  /** The register after a message is the remainder of the message and 32 zeros, the register added to its head. */
  lemma {:induction false} RemainderIsRegister(r: Register, bits: seq<bool>)
    ensures Remainder(AddHead(Coefficients(r), bits + Zeros())) == Coefficients(TakeAll(r, bits))
    decreases bits
  {
    hide TakeBit, Reduce;
    if bits == [] {
      assert AddHead(Coefficients(r), bits + Zeros()) == Coefficients(r);
    } else {
      var rest := bits[1..] + Zeros();
      assert bits + Zeros() == [bits[0]] + rest;
      ReduceIsTakeBit(r, bits[0], rest);
      RemainderIsRegister(TakeBit(r, bits[0]), bits[1..]);
    }
  }

  function Zeros(): (z: seq<bool>)
    ensures |z| == 32
  {
    seq(32, _ => false)
  }

  function Complement(c: seq<bool>): (d: seq<bool>)
    ensures |d| == |c|
  {
    seq(|c|, i requires 0 <= i < |c| => !c[i])
  }

  /**
    The CRC as the standard defines it: append 32 zeros to the message, complement its first 32 bits,
    divide by G(x), and complement the remainder.
  */
  function StandardCrc(buf: seq<bv8>): seq<bool>
  {
    var d := MessageBits(buf) + Zeros();
    Complement(Remainder(Complement(d[..32]) + d[32..]))
  }

  /** What crc32 returns is the CRC of the standard, for every buffer. */
  lemma CrcIsStandard(buf: seq<bv8>)
    ensures Coefficients(Crc(buf)) == StandardCrc(buf)
  {
    var bits := MessageBits(buf);
    var d := bits + Zeros();
    var r := TakeAll(ALL_ONES, bits);
    forall i: nat | i < 32 ensures Bit(ALL_ONES, i) && (Bit(Xor(r, ALL_ONES), i) <==> !Bit(r, i)) {
      AllBits(i);
      BitXor(r, ALL_ONES, i);
    }
    assert AddHead(Coefficients(ALL_ONES), d) == Complement(d[..32]) + d[32..];
    RemainderIsRegister(ALL_ONES, bits);
    assert Coefficients(Xor(r, ALL_ONES)) == Complement(Coefficients(r));
  }
}
