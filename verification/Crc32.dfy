/** The table-driven CRC of core/crc32.c. */
module Crc32 {
  const POLY: bv32 := 0xedb88320

  function Row0(l: bv32): bv32 {
    if l == 0 then 0x00000000 else if l == 1 then 0x77073096 else
    if l == 2 then 0xee0e612c else if l == 3 then 0x990951ba else
    if l == 4 then 0x076dc419 else if l == 5 then 0x706af48f else
    if l == 6 then 0xe963a535 else if l == 7 then 0x9e6495a3 else
    if l == 8 then 0x0edb8832 else if l == 9 then 0x79dcb8a4 else
    if l == 10 then 0xe0d5e91e else if l == 11 then 0x97d2d988 else
    if l == 12 then 0x09b64c2b else if l == 13 then 0x7eb17cbd else
    if l == 14 then 0xe7b82d07 else 0x90bf1d91
  }

  function Row1(l: bv32): bv32 {
    if l == 0 then 0x1db71064 else if l == 1 then 0x6ab020f2 else
    if l == 2 then 0xf3b97148 else if l == 3 then 0x84be41de else
    if l == 4 then 0x1adad47d else if l == 5 then 0x6ddde4eb else
    if l == 6 then 0xf4d4b551 else if l == 7 then 0x83d385c7 else
    if l == 8 then 0x136c9856 else if l == 9 then 0x646ba8c0 else
    if l == 10 then 0xfd62f97a else if l == 11 then 0x8a65c9ec else
    if l == 12 then 0x14015c4f else if l == 13 then 0x63066cd9 else
    if l == 14 then 0xfa0f3d63 else 0x8d080df5
  }

  function Row2(l: bv32): bv32 {
    if l == 0 then 0x3b6e20c8 else if l == 1 then 0x4c69105e else
    if l == 2 then 0xd56041e4 else if l == 3 then 0xa2677172 else
    if l == 4 then 0x3c03e4d1 else if l == 5 then 0x4b04d447 else
    if l == 6 then 0xd20d85fd else if l == 7 then 0xa50ab56b else
    if l == 8 then 0x35b5a8fa else if l == 9 then 0x42b2986c else
    if l == 10 then 0xdbbbc9d6 else if l == 11 then 0xacbcf940 else
    if l == 12 then 0x32d86ce3 else if l == 13 then 0x45df5c75 else
    if l == 14 then 0xdcd60dcf else 0xabd13d59
  }

  function Row3(l: bv32): bv32 {
    if l == 0 then 0x26d930ac else if l == 1 then 0x51de003a else
    if l == 2 then 0xc8d75180 else if l == 3 then 0xbfd06116 else
    if l == 4 then 0x21b4f4b5 else if l == 5 then 0x56b3c423 else
    if l == 6 then 0xcfba9599 else if l == 7 then 0xb8bda50f else
    if l == 8 then 0x2802b89e else if l == 9 then 0x5f058808 else
    if l == 10 then 0xc60cd9b2 else if l == 11 then 0xb10be924 else
    if l == 12 then 0x2f6f7c87 else if l == 13 then 0x58684c11 else
    if l == 14 then 0xc1611dab else 0xb6662d3d
  }

  function Row4(l: bv32): bv32 {
    if l == 0 then 0x76dc4190 else if l == 1 then 0x01db7106 else
    if l == 2 then 0x98d220bc else if l == 3 then 0xefd5102a else
    if l == 4 then 0x71b18589 else if l == 5 then 0x06b6b51f else
    if l == 6 then 0x9fbfe4a5 else if l == 7 then 0xe8b8d433 else
    if l == 8 then 0x7807c9a2 else if l == 9 then 0x0f00f934 else
    if l == 10 then 0x9609a88e else if l == 11 then 0xe10e9818 else
    if l == 12 then 0x7f6a0dbb else if l == 13 then 0x086d3d2d else
    if l == 14 then 0x91646c97 else 0xe6635c01
  }

  function Row5(l: bv32): bv32 {
    if l == 0 then 0x6b6b51f4 else if l == 1 then 0x1c6c6162 else
    if l == 2 then 0x856530d8 else if l == 3 then 0xf262004e else
    if l == 4 then 0x6c0695ed else if l == 5 then 0x1b01a57b else
    if l == 6 then 0x8208f4c1 else if l == 7 then 0xf50fc457 else
    if l == 8 then 0x65b0d9c6 else if l == 9 then 0x12b7e950 else
    if l == 10 then 0x8bbeb8ea else if l == 11 then 0xfcb9887c else
    if l == 12 then 0x62dd1ddf else if l == 13 then 0x15da2d49 else
    if l == 14 then 0x8cd37cf3 else 0xfbd44c65
  }

  function Row6(l: bv32): bv32 {
    if l == 0 then 0x4db26158 else if l == 1 then 0x3ab551ce else
    if l == 2 then 0xa3bc0074 else if l == 3 then 0xd4bb30e2 else
    if l == 4 then 0x4adfa541 else if l == 5 then 0x3dd895d7 else
    if l == 6 then 0xa4d1c46d else if l == 7 then 0xd3d6f4fb else
    if l == 8 then 0x4369e96a else if l == 9 then 0x346ed9fc else
    if l == 10 then 0xad678846 else if l == 11 then 0xda60b8d0 else
    if l == 12 then 0x44042d73 else if l == 13 then 0x33031de5 else
    if l == 14 then 0xaa0a4c5f else 0xdd0d7cc9
  }

  function Row7(l: bv32): bv32 {
    if l == 0 then 0x5005713c else if l == 1 then 0x270241aa else
    if l == 2 then 0xbe0b1010 else if l == 3 then 0xc90c2086 else
    if l == 4 then 0x5768b525 else if l == 5 then 0x206f85b3 else
    if l == 6 then 0xb966d409 else if l == 7 then 0xce61e49f else
    if l == 8 then 0x5edef90e else if l == 9 then 0x29d9c998 else
    if l == 10 then 0xb0d09822 else if l == 11 then 0xc7d7a8b4 else
    if l == 12 then 0x59b33d17 else if l == 13 then 0x2eb40d81 else
    if l == 14 then 0xb7bd5c3b else 0xc0ba6cad
  }

  function Row8(l: bv32): bv32 {
    if l == 0 then 0xedb88320 else if l == 1 then 0x9abfb3b6 else
    if l == 2 then 0x03b6e20c else if l == 3 then 0x74b1d29a else
    if l == 4 then 0xead54739 else if l == 5 then 0x9dd277af else
    if l == 6 then 0x04db2615 else if l == 7 then 0x73dc1683 else
    if l == 8 then 0xe3630b12 else if l == 9 then 0x94643b84 else
    if l == 10 then 0x0d6d6a3e else if l == 11 then 0x7a6a5aa8 else
    if l == 12 then 0xe40ecf0b else if l == 13 then 0x9309ff9d else
    if l == 14 then 0x0a00ae27 else 0x7d079eb1
  }

  function Row9(l: bv32): bv32 {
    if l == 0 then 0xf00f9344 else if l == 1 then 0x8708a3d2 else
    if l == 2 then 0x1e01f268 else if l == 3 then 0x6906c2fe else
    if l == 4 then 0xf762575d else if l == 5 then 0x806567cb else
    if l == 6 then 0x196c3671 else if l == 7 then 0x6e6b06e7 else
    if l == 8 then 0xfed41b76 else if l == 9 then 0x89d32be0 else
    if l == 10 then 0x10da7a5a else if l == 11 then 0x67dd4acc else
    if l == 12 then 0xf9b9df6f else if l == 13 then 0x8ebeeff9 else
    if l == 14 then 0x17b7be43 else 0x60b08ed5
  }

  function RowA(l: bv32): bv32 {
    if l == 0 then 0xd6d6a3e8 else if l == 1 then 0xa1d1937e else
    if l == 2 then 0x38d8c2c4 else if l == 3 then 0x4fdff252 else
    if l == 4 then 0xd1bb67f1 else if l == 5 then 0xa6bc5767 else
    if l == 6 then 0x3fb506dd else if l == 7 then 0x48b2364b else
    if l == 8 then 0xd80d2bda else if l == 9 then 0xaf0a1b4c else
    if l == 10 then 0x36034af6 else if l == 11 then 0x41047a60 else
    if l == 12 then 0xdf60efc3 else if l == 13 then 0xa867df55 else
    if l == 14 then 0x316e8eef else 0x4669be79
  }

  function RowB(l: bv32): bv32 {
    if l == 0 then 0xcb61b38c else if l == 1 then 0xbc66831a else
    if l == 2 then 0x256fd2a0 else if l == 3 then 0x5268e236 else
    if l == 4 then 0xcc0c7795 else if l == 5 then 0xbb0b4703 else
    if l == 6 then 0x220216b9 else if l == 7 then 0x5505262f else
    if l == 8 then 0xc5ba3bbe else if l == 9 then 0xb2bd0b28 else
    if l == 10 then 0x2bb45a92 else if l == 11 then 0x5cb36a04 else
    if l == 12 then 0xc2d7ffa7 else if l == 13 then 0xb5d0cf31 else
    if l == 14 then 0x2cd99e8b else 0x5bdeae1d
  }

  function RowC(l: bv32): bv32 {
    if l == 0 then 0x9b64c2b0 else if l == 1 then 0xec63f226 else
    if l == 2 then 0x756aa39c else if l == 3 then 0x026d930a else
    if l == 4 then 0x9c0906a9 else if l == 5 then 0xeb0e363f else
    if l == 6 then 0x72076785 else if l == 7 then 0x05005713 else
    if l == 8 then 0x95bf4a82 else if l == 9 then 0xe2b87a14 else
    if l == 10 then 0x7bb12bae else if l == 11 then 0x0cb61b38 else
    if l == 12 then 0x92d28e9b else if l == 13 then 0xe5d5be0d else
    if l == 14 then 0x7cdcefb7 else 0x0bdbdf21
  }

  function RowD(l: bv32): bv32 {
    if l == 0 then 0x86d3d2d4 else if l == 1 then 0xf1d4e242 else
    if l == 2 then 0x68ddb3f8 else if l == 3 then 0x1fda836e else
    if l == 4 then 0x81be16cd else if l == 5 then 0xf6b9265b else
    if l == 6 then 0x6fb077e1 else if l == 7 then 0x18b74777 else
    if l == 8 then 0x88085ae6 else if l == 9 then 0xff0f6a70 else
    if l == 10 then 0x66063bca else if l == 11 then 0x11010b5c else
    if l == 12 then 0x8f659eff else if l == 13 then 0xf862ae69 else
    if l == 14 then 0x616bffd3 else 0x166ccf45
  }

  function RowE(l: bv32): bv32 {
    if l == 0 then 0xa00ae278 else if l == 1 then 0xd70dd2ee else
    if l == 2 then 0x4e048354 else if l == 3 then 0x3903b3c2 else
    if l == 4 then 0xa7672661 else if l == 5 then 0xd06016f7 else
    if l == 6 then 0x4969474d else if l == 7 then 0x3e6e77db else
    if l == 8 then 0xaed16a4a else if l == 9 then 0xd9d65adc else
    if l == 10 then 0x40df0b66 else if l == 11 then 0x37d83bf0 else
    if l == 12 then 0xa9bcae53 else if l == 13 then 0xdebb9ec5 else
    if l == 14 then 0x47b2cf7f else 0x30b5ffe9
  }

  function RowF(l: bv32): bv32 {
    if l == 0 then 0xbdbdf21c else if l == 1 then 0xcabac28a else
    if l == 2 then 0x53b39330 else if l == 3 then 0x24b4a3a6 else
    if l == 4 then 0xbad03605 else if l == 5 then 0xcdd70693 else
    if l == 6 then 0x54de5729 else if l == 7 then 0x23d967bf else
    if l == 8 then 0xb3667a2e else if l == 9 then 0xc4614ab8 else
    if l == 10 then 0x5d681b02 else if l == 11 then 0x2a6f2b94 else
    if l == 12 then 0xb40bbe37 else if l == 13 then 0xc30c8ea1 else
    if l == 14 then 0x5a05df1b else 0x2d02ef8d
  }

  /** `crc_table[i]`, sixteen rows of sixteen. */
  function Entry(i: bv32): bv32 {
    var h, l := i >> 4, i & 0xf;
    if h == 0 then Row0(l) else
    if h == 1 then Row1(l) else
    if h == 2 then Row2(l) else
    if h == 3 then Row3(l) else
    if h == 4 then Row4(l) else
    if h == 5 then Row5(l) else
    if h == 6 then Row6(l) else
    if h == 7 then Row7(l) else
    if h == 8 then Row8(l) else
    if h == 9 then Row9(l) else
    if h == 10 then RowA(l) else
    if h == 11 then RowB(l) else
    if h == 12 then RowC(l) else
    if h == 13 then RowD(l) else
    if h == 14 then RowE(l) else
    RowF(l)
  }

  /** One bit of the reflected CRC. */
  function BitStep(c: bv32): bv32 {
    if c & 1 == 1 then (c >> 1) ^ POLY else c >> 1
  }

  function BitSteps(c: bv32, n: nat): bv32 {
    if n == 0 then c else BitStep(BitSteps(c, n - 1))
  }

  function Mix(c: bv32, b: bv8): bv32 {
    c ^ (b as bv32)
  }

  function Rest(c: bv32): bv32 {
    (c >> 8) & 0xffffff
  }

  function Low(c: bv32): bv32 {
    c & 0xff
  }

  lemma {:induction false} LowBound(c: bv32)
    ensures Low(c) < 256
  {
  }

  /** The bit-at-a-time CRC register after a byte (section 8 of RFC 1952). */
  function ByteStep(c: bv32, b: bv8): bv32 {
    BitSteps(Mix(c, b), 8)
  }

  function Register(c: bv32, block: seq<bv8>): bv32 {
    if block == [] then c else ByteStep(Register(c, block[..|block| - 1]), block[|block| - 1])
  }

  /** The register over a concatenation continues from the register over its first part. */
  lemma {:induction false} RegisterSplit(c: bv32, a: seq<bv8>, b: seq<bv8>)
    ensures Register(c, a + b) == Register(Register(c, a), b)
    decreases |b|
  {
    if b == [] {
      assert a + b == a;
    } else {
      var n := |b| - 1;
      RegisterSplit(c, a, b[..n]);
      assert (a + b)[..|a| + n] == a + b[..n];
    }
  }

  function Eight(c: bv32): bv32 {
    BitStep(BitStep(BitStep(BitStep(BitStep(BitStep(BitStep(BitStep(c))))))))
  }

  lemma {:induction false} EightSteps(c: bv32)
    ensures BitSteps(c, 8) == Eight(c)
  {
    hide BitStep;
    assert BitSteps(c, 1) == BitStep(BitSteps(c, 0));
    assert BitSteps(c, 2) == BitStep(BitSteps(c, 1));
    assert BitSteps(c, 3) == BitStep(BitSteps(c, 2));
    assert BitSteps(c, 4) == BitStep(BitSteps(c, 3));
    assert BitSteps(c, 5) == BitStep(BitSteps(c, 4));
    assert BitSteps(c, 6) == BitStep(BitSteps(c, 5));
    assert BitSteps(c, 7) == BitStep(BitSteps(c, 6));
  }

  lemma {:induction false} FirstQuarterRight(i: bv32)
    requires i < 64
    ensures Entry(i) == Eight(i)
  {
  }

  lemma {:induction false} SecondQuarterRight(i: bv32)
    requires 64 <= i < 128
    ensures Entry(i) == Eight(i)
  {
  }

  lemma {:induction false} SecondHalfRight(i: bv32)
    requires 128 <= i < 256
    ensures Entry(i) == Eight(i)
  {
  }

  /** All 256 table entries are the eight bit steps of their index. */
  lemma {:induction false} TableRight(i: bv32)
    requires i < 256
    ensures Entry(i) == Eight(i)
  {
    hide Entry, Eight;
    if i < 64 {
      FirstQuarterRight(i);
    } else if i < 128 {
      SecondQuarterRight(i);
    } else {
      SecondHalfRight(i);
    }
  }

  function Xor(a: bv32, b: bv32): bv32 {
    a ^ b
  }

  function Half(a: bv32): bv32 {
    a >> 1
  }

  predicate Even(a: bv32) {
    a & 1 == 0
  }

  lemma {:induction false} RawXor(h: bv32, l: bv32, p: bv32)
    ensures h & 1 == 0 ==> (h ^ l) & 1 == l & 1
    ensures (h ^ l) >> 1 == (h >> 1) ^ (l >> 1) && (h ^ l) ^ p == h ^ (l ^ p)
  {
  }

  lemma {:induction false} XorEven(h: bv32, l: bv32)
    requires Even(h)
    ensures Even(Xor(h, l)) == Even(l)
  {
    RawXor(h, l, 0);
  }

  lemma {:induction false} XorHalf(h: bv32, l: bv32)
    ensures Half(Xor(h, l)) == Xor(Half(h), Half(l))
  {
    RawXor(h, l, 0);
  }

  lemma {:induction false} XorAssociates(a: bv32, b: bv32, c: bv32)
    ensures Xor(Xor(a, b), c) == Xor(a, Xor(b, c))
  {
    RawXor(a, b, c);
  }

  lemma {:induction false} StepOf(c: bv32)
    ensures BitStep(c) == if Even(c) then Half(c) else Xor(Half(c), POLY)
  {
  }

  /** A clear low bit leaves the high part out of the feedback. */
  lemma {:induction false} StepSplits(h: bv32, l: bv32)
    requires Even(h)
    ensures BitStep(Xor(h, l)) == Xor(Half(h), BitStep(l))
  {
    hide Xor, Half, Even, BitStep;
    StepOf(Xor(h, l));
    StepOf(l);
    XorEven(h, l);
    XorHalf(h, l);
    XorAssociates(Half(h), Half(l), POLY);
  }

  /** The part above the low byte. */
  function High(x: bv32): bv32 {
    x & 0xffffff00
  }

  function Four(c: bv32): bv32 {
    BitStep(BitStep(BitStep(BitStep(c))))
  }

  function Half4(h: bv32): bv32 {
    Half(Half(Half(Half(h))))
  }

  predicate EvenFour(h: bv32) {
    Even(h) && Even(Half(h)) && Even(Half(Half(h))) && Even(Half(Half(Half(h))))
  }

  lemma {:induction false} FourSplits(h: bv32, l: bv32)
    requires EvenFour(h)
    ensures Four(Xor(h, l)) == Xor(Half4(h), Four(l))
  {
    hide Xor, Half, Even, BitStep;
    StepSplits(h, l);
    StepSplits(Half(h), BitStep(l));
    StepSplits(Half(Half(h)), BitStep(BitStep(l)));
    StepSplits(Half(Half(Half(h))), BitStep(BitStep(BitStep(l))));
  }

  lemma {:induction false} EightAsFours(c: bv32)
    ensures Eight(c) == Four(Four(c))
  {
    hide BitStep;
  }

  lemma {:induction false} SplitByte(x: bv32)
    ensures x == Xor(High(x), Low(x))
  {
  }

  lemma {:induction false} HighEven(x: bv32)
    ensures EvenFour(High(x))
  {
  }

  lemma {:induction false} HighEvenAgain(x: bv32)
    ensures EvenFour(Half4(High(x)))
  {
  }

  lemma {:induction false} HighRest(x: bv32)
    ensures Half4(Half4(High(x))) == Rest(x)
  {
  }

  /** A byte's worth of steps shifts the high bits out unchanged. */
  lemma {:induction false} EightSplits(x: bv32)
    ensures Eight(x) == Xor(Rest(x), Eight(Low(x)))
  {
    hide Four, Eight, Xor, Half, Even, High, Rest, Low;
    var h, l := High(x), Low(x);
    SplitByte(x);
    HighEven(x);
    HighEvenAgain(x);
    HighRest(x);
    EightAsFours(x);
    EightAsFours(l);
    FourSplits(h, l);
    FourSplits(Half4(h), Four(l));
  }

  /** `((c >> 8) & 0xffffff) ^ crc_table[(c ^ *block) & 0xff]`. */
  function TableByte(c: bv32, b: bv8): bv32 {
    Rest(c) ^ Entry(Low(Mix(c, b)))
  }

  lemma {:induction false} RestOfMix(c: bv32, b: bv8)
    ensures Rest(Mix(c, b)) == Rest(c)
  {
  }

  lemma {:induction false} TableByteParts(c: bv32, b: bv8)
    ensures TableByte(c, b) == Xor(Rest(Mix(c, b)), Entry(Low(Mix(c, b))))
  {
    hide Entry, Rest, Low, Mix;
    RestOfMix(c, b);
  }

  /** One table lookup does the work of eight bit steps. */
  lemma {:induction false} TableStep(c: bv32, b: bv8)
    ensures TableByte(c, b) == ByteStep(c, b)
  {
    hide Entry, Eight, BitSteps, Xor, Mix, Rest, Low, TableByte;
    var x := Mix(c, b);
    EightSteps(x);
    EightSplits(x);
    TableByteParts(c, b);
    LowBound(x);
    TableRight(Low(x));
  }

  method Loop(start: bv32, block: seq<bv8>) returns (c: bv32)
    ensures c == Register(start, block)
  {
    hide TableByte, ByteStep;
    c := start;
    for i := 0 to |block|
      invariant c == Register(start, block[..i])
    {
      TableStep(c, block[i]);
      c := TableByte(c, block[i]);
      assert block[..i + 1][..i] == block[..i];
    }
    assert block[..|block|] == block;
  }

  const HELLO: seq<bv8> := [72, 101, 108, 108, 111, 44, 32, 87, 111, 114, 108, 100, 33]

  lemma {:induction false} RegisterNone(block: seq<bv8>)
    ensures Register(0xffffffff, block[..0]) == 0xffffffff && block[..|block|] == block
  {
  }

  lemma {:induction false} RegisterNext(block: seq<bv8>, i: nat, b: bv8, c: bv32, c': bv32)
    requires i < |block| && block[i] == b && Register(0xffffffff, block[..i]) == c && Eight(Mix(c, b)) == c'
    ensures Register(0xffffffff, block[..i + 1]) == c'
  {
    hide Eight, Mix;
    EightSteps(Mix(c, b));
    assert block[..i + 1][..i] == block[..i];
  }

  lemma {:induction false} HelloFirst()
    ensures Register(0xffffffff, HELLO[..4]) == 0x434b5022
  {
    hide Register;
    RegisterNone(HELLO);
    RegisterNext(HELLO, 0, 72, 0xffffffff, 0x55fad9d0);
    RegisterNext(HELLO, 1, 101, 0x55fad9d0, 0xbb5ebdda);
    RegisterNext(HELLO, 2, 108, 0xbb5ebdda, 0x22b94804);
    RegisterNext(HELLO, 3, 108, 0x22b94804, 0x434b5022);
  }

  lemma {:induction false} HelloSecond()
    requires Register(0xffffffff, HELLO[..4]) == 0x434b5022
    ensures Register(0xffffffff, HELLO[..8]) == 0xa84677c5
  {
    hide Register;
    RegisterNext(HELLO, 4, 111, 0x434b5022, 0x082e767d);
    RegisterNext(HELLO, 5, 44, 0x082e767d, 0x1c644f14);
    RegisterNext(HELLO, 6, 32, 0x1c644f14, 0x21a890fa);
    RegisterNext(HELLO, 7, 87, 0x21a890fa, 0xa84677c5);
  }

  lemma {:induction false} HelloThird()
    requires Register(0xffffffff, HELLO[..8]) == 0xa84677c5
    ensures Register(0xffffffff, HELLO[..13]) == 0x13b53c2f
  {
    hide Register;
    RegisterNext(HELLO, 8, 111, 0xa84677c5, 0x36ab0c81);
    RegisterNext(HELLO, 9, 114, 0x36ab0c81, 0x248208aa);
    RegisterNext(HELLO, 10, 108, 0x248208aa, 0x7223e58d);
    RegisterNext(HELLO, 11, 100, 0x7223e58d, 0xd9a47939);
    RegisterNext(HELLO, 12, 33, 0xd9a47939, 0x13b53c2f);
  }

  /** The check value of "Hello, World!". */
  lemma {:induction false} CheckValue()
    ensures Register(0xffffffff, HELLO) ^ 0xffffffff == 3964322768
  {
    hide Register;
    RegisterNone(HELLO);
    HelloFirst();
    HelloSecond();
    HelloThird();
  }

  /** `crc32`: the register starts and ends complemented. */
  method Crc(block: seq<bv8>) returns (r: bv32)
    ensures r == Register(0xffffffff, block) ^ 0xffffffff
    ensures block == HELLO ==> r == 3964322768
  {
    CheckValue();
    var c := Loop(0xffffffff, block);
    r := c ^ 0xffffffff;
  }

  // ----- Against the bit stream -----

  /** The register fed with one message bit. */
  function Feed(c: bv32, bit: bool): bv32 {
    if (c & 1 == 1) != bit then (c >> 1) ^ 0xedb88320 else c >> 1
  }

  lemma {:induction false} FeedOf(c: bv32)
    ensures Feed(c, false) == BitStep(c) && Feed(c, true) == BitStep(Xor(c, 1))
  {
  }

  lemma {:induction false} XorCommutes(c: bv32, x: bv32)
    ensures Xor(c, x) == Xor(x, c)
  {
  }

  lemma {:induction false} SplitLowBit(c: bv32, x: bv32)
    requires x < 256 && x & 1 == 1
    ensures Xor(c, x) == Xor(x & 0xfe, Xor(c, 1)) && Even(x & 0xfe) && Half(x & 0xfe) == x >> 1
  {
  }

  /** A step on register and pending message bits feeds the lowest of them. */
  lemma {:induction false} FeedShift(c: bv32, x: bv32)
    requires x < 256
    ensures BitStep(Xor(c, x)) == Xor(Feed(c, x & 1 == 1), x >> 1)
  {
    hide BitStep, Feed, Xor;
    FeedOf(c);
    if x & 1 == 1 {
      SplitLowBit(c, x);
      StepSplits(x & 0xfe, Xor(c, 1));
      XorCommutes(Half(x & 0xfe), BitStep(Xor(c, 1)));
    } else {
      XorCommutes(c, x);
      StepSplits(x, c);
      XorCommutes(Half(x), BitStep(c));
    }
  }

  lemma {:induction false} MixXor(c: bv32, b: bv8)
    ensures Mix(c, b) == Xor(c, b as bv32)
  {
  }

  lemma {:induction false} XorNone(c: bv32)
    ensures Xor(c, 0) == c
  {
  }

  lemma {:induction false} Shifts(b: bv8)
    ensures var x := b as bv32;
      && x < 256 && x >> 1 < 256 && x >> 2 < 256 && x >> 3 < 256
      && x >> 4 < 256 && x >> 5 < 256 && x >> 6 < 256 && x >> 7 < 256
      && (x >> 1) >> 1 == x >> 2 && (x >> 2) >> 1 == x >> 3 && (x >> 3) >> 1 == x >> 4 && (x >> 4) >> 1 == x >> 5
      && (x >> 5) >> 1 == x >> 6 && (x >> 6) >> 1 == x >> 7 && (x >> 7) >> 1 == 0
      && (x & 1 == 1 <==> b & 1 != 0) && ((x >> 1) & 1 == 1 <==> b & 2 != 0)
      && ((x >> 2) & 1 == 1 <==> b & 4 != 0) && ((x >> 3) & 1 == 1 <==> b & 8 != 0)
      && ((x >> 4) & 1 == 1 <==> b & 16 != 0) && ((x >> 5) & 1 == 1 <==> b & 32 != 0)
      && ((x >> 6) & 1 == 1 <==> b & 64 != 0) && ((x >> 7) & 1 == 1 <==> b & 128 != 0)
  {
  }

  /** A byte's step is the register fed with its eight bits, lowest first. */
  lemma {:induction false} ByteStepIsSerial(c: bv32, b: bv8)
    ensures ByteStep(c, b) ==
      Feed(Feed(Feed(Feed(Feed(Feed(Feed(Feed(c, b & 1 != 0), b & 2 != 0), b & 4 != 0), b & 8 != 0),
        b & 16 != 0), b & 32 != 0), b & 64 != 0), b & 128 != 0)
  {
    hide BitStep, Feed, Xor;
    var x := b as bv32;
    MixXor(c, b);
    EightSteps(Xor(c, x));
    var x1, x2, x3, x4, x5, x6, x7 := x >> 1, x >> 2, x >> 3, x >> 4, x >> 5, x >> 6, x >> 7;
    Shifts(b);
    var c1 := Feed(c, x & 1 == 1);
    var c2 := Feed(c1, x1 & 1 == 1);
    var c3 := Feed(c2, x2 & 1 == 1);
    var c4 := Feed(c3, x3 & 1 == 1);
    var c5 := Feed(c4, x4 & 1 == 1);
    var c6 := Feed(c5, x5 & 1 == 1);
    var c7 := Feed(c6, x6 & 1 == 1);
    FeedShift(c, x);
    FeedShift(c1, x1);
    FeedShift(c2, x2);
    FeedShift(c3, x3);
    FeedShift(c4, x4);
    FeedShift(c5, x5);
    FeedShift(c6, x6);
    FeedShift(c7, x7);
    XorNone(Feed(c7, x7 & 1 == 1));
  }
}
