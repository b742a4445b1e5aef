/**
 * The table-driven CRC-32 of migration scripts, proved against the bit-serial shift register of
 * section 8 of RFC 1952 (reflected polynomial 0xEDB88320), and what the checksum can detect.
 */
module Crc32 {
  import opened Registers
  import opened Sequences

  const POLYNOMIAL: bv32 := 0xEDB88320
  const ONES: bv32 := 0xFFFFFFFF
  const TOP: bv32 := 0x80000000

  // ------------------------------------------------------------------ words

  function Xor(a: bv32, b: bv32): bv32 {
    a ^ b
  }

  function Word(b: bv8): bv32 {
    b as bv32
  }

  function BitWord(bit: bool): bv32 {
    if bit then 1 else 0
  }

  function Low(w: bv32): bool {
    w & 1 == 1
  }

  function Up(w: bv32): bv32 {
    w << 1
  }

  function Down(w: bv32): bv32 {
    w >> 1
  }

  function ByteDown(w: bv32): bv32 {
    w >> 8
  }

  function LowByte(w: bv32): bv32 {
    w & 0xFF
  }

  function HighBytes(w: bv32): bv32 {
    w & 0xFFFFFF00
  }

  // ------------------------------------------------------------------ bit-serial reference

  /** One shift of the register with no message bit coming in. */
  function Shift(c: bv32): bv32 {
    if c & 1 == 1 then POLYNOMIAL ^ (c >> 1) else c >> 1
  }

  /** The register after one message bit. */
  function BitStep(c: bv32, bit: bool): bv32 {
    Shift(Xor(c, BitWord(bit)))
  }

  /** The bits of a byte, least significant first: the order in which they enter the register. */
  function ByteBits(b: bv8): seq<bool> {
    LowBits(Low, Down, Word(b), 8)
  }

  function Bits(bytes: seq<bv8>): seq<bool> {
    Flat(ByteBits, bytes)
  }

  /** CRC-32: the register starts at all ones and is complemented at the end. */
  function Crc(bytes: seq<bv8>): bv32 {
    Xor(Run(BitStep, ONES, Bits(bytes)), ONES)
  }

  // ------------------------------------------------------------------ single-word facts

  lemma XorUndo(x: bv32, w: bv32)
    ensures Xor(Xor(x, w), w) == x
  {}

  lemma XorCancels(a: bv32, b: bv32, w: bv32)
    requires Xor(a, w) == Xor(b, w)
    ensures a == b
  {
    hide *;
    XorUndo(a, w);
    XorUndo(b, w);
  }

  lemma XorIsZero(a: bv32, b: bv32)
    ensures Xor(a, b) == 0 <==> a == b
  {
    hide *;
    XorSelf(a);
    XorUndo(a, b);
    XorZero(b);
  }

  lemma XorSelf(a: bv32)
    ensures Xor(a, a) == 0
  {}

  lemma XorDef(a: bv32, b: bv32)
    ensures Xor(a, b) == a ^ b
  {}

  lemma XorZero(a: bv32)
    ensures Xor(a, 0) == a && Xor(0, a) == a
  {}

  lemma XorAssociative(a: bv32, b: bv32, c: bv32)
    ensures Xor(Xor(a, b), c) == Xor(a, Xor(b, c))
  {}

  lemma XorCommutes(a: bv32, b: bv32)
    ensures Xor(a, b) == Xor(b, a)
  {}

  lemma XorShift(a: bv32, b: bv32)
    ensures (a ^ b) >> 1 == (a >> 1) ^ (b >> 1)
    ensures (a ^ b) & 1 == (a & 1) ^ (b & 1)
    ensures a & 1 == 0 || a & 1 == 1
  {}

  lemma XorRearrange(p: bv32, a: bv32, b: bv32)
    ensures (p ^ a) ^ (p ^ b) == a ^ b && (p ^ a) ^ b == p ^ (a ^ b) && a ^ (p ^ b) == p ^ (a ^ b)
  {}

  lemma ShiftOverXor(a: bv32, b: bv32)
    ensures Shift(a ^ b) == Shift(a) ^ Shift(b)
  {
    XorShift(a, b);
    XorShift(b, a);
    XorRearrange(POLYNOMIAL, a >> 1, b >> 1);
  }

  /** Shifting is linear over exclusive or. */
  lemma ShiftLinear(a: bv32, b: bv32)
    ensures Shift(Xor(a, b)) == Xor(Shift(a), Shift(b))
  {
    hide *;
    ShiftOverXor(a, b);
    XorDef(a, b);
    XorDef(Shift(a), Shift(b));
  }

  function Unshift(y: bv32): bv32 {
    if y & TOP == 0 then y << 1 else ((y ^ POLYNOMIAL) << 1) | 1
  }

  /** Shifting loses nothing. */
  lemma UnshiftShift(x: bv32)
    ensures Unshift(Shift(x)) == x
  {}

  lemma ShiftInjective(x: bv32, y: bv32)
    requires Shift(x) == Shift(y)
    ensures x == y
  {
    hide *;
    UnshiftShift(x);
    UnshiftShift(y);
  }

  lemma BitStepInjective(x: bv32, y: bv32, b: bool)
    requires BitStep(x, b) == BitStep(y, b)
    ensures x == y
  {
    hide Shift, Xor, BitWord;
    ShiftInjective(Xor(x, BitWord(b)), Xor(y, BitWord(b)));
    XorCancels(x, y, BitWord(b));
  }

  // ------------------------------------------------------------------ table-driven step

  function EvenPart(w: bv32): bv32 {
    w & 0xFFFFFFFE
  }

  lemma SplitLowBit(w: bv32)
    ensures w == Xor(BitWord(Low(w)), EvenPart(w))
  {}

  lemma ShiftEven(w: bv32)
    ensures Shift(EvenPart(w)) == Down(w)
  {}

  lemma ShiftWord(c: bv32, w: bv32)
    ensures Shift(Xor(c, w)) == Xor(BitStep(c, Low(w)), Down(w))
  {
    hide Shift, Xor, BitWord, Low, EvenPart, Down;
    var bit := BitWord(Low(w));
    SplitLowBit(w);
    XorAssociative(c, bit, EvenPart(w));
    ShiftLinear(Xor(c, bit), EvenPart(w));
    ShiftEven(w);
  }

  /** Mixing a byte in at once and shifting eight times feeds its bits in one by one. */
  lemma ShiftsFeedByte(c: bv32, b: bv8)
    ensures Iterate(Shift, Xor(c, Word(b)), 8) == Run(BitStep, c, ByteBits(b))
  {
    hide Shift, Xor, BitStep, Low, Down, Word, Iterate, Run;
    forall x, y ensures Shift(Xor(x, y)) == Xor(BitStep(x, Low(y)), Down(y)) {
      ShiftWord(x, y);
    }
    IterateFeeds(Shift, Xor, BitStep, Low, Down, c, Word(b), 8);
    ByteShiftedOut(b);
    XorZero(Run(BitStep, c, ByteBits(b)));
  }

  lemma ByteShiftedOut(b: bv8)
    ensures Iterate(Down, Word(b), 8) == 0
  {
    var w := b as bv32;
    assert (w >> 1) >> 1 == w >> 2 && (w >> 2) >> 1 == w >> 3 && (w >> 3) >> 1 == w >> 4;
    assert (w >> 4) >> 1 == w >> 5 && (w >> 5) >> 1 == w >> 6 && (w >> 6) >> 1 == w >> 7;
    assert (w >> 7) >> 1 == 0;
    calc {
      Iterate(Down, w, 8);
      Iterate(Down, w >> 1, 7);
      Iterate(Down, w >> 2, 6);
      Iterate(Down, w >> 3, 5);
      Iterate(Down, w >> 4, 4);
      Iterate(Down, w >> 5, 3);
      Iterate(Down, w >> 6, 2);
      Iterate(Down, w >> 7, 1);
      Iterate(Down, 0, 0);
    }
  }

  /** With a zero low byte nothing falls off the end in eight shifts. */
  lemma HighBytesMoveDown(x: bv32)
    requires x & 0xFF == 0
    ensures Iterate(Shift, x, 8) == ByteDown(x)
  {
    assert Shift(x) == x >> 1;
    assert Shift(x >> 1) == x >> 2;
    assert Shift(x >> 2) == x >> 3;
    assert Shift(x >> 3) == x >> 4;
    assert Shift(x >> 4) == x >> 5;
    assert Shift(x >> 5) == x >> 6;
    assert Shift(x >> 6) == x >> 7;
    assert Shift(x >> 7) == x >> 8;
    calc {
      Iterate(Shift, x, 8);
      Iterate(Shift, x >> 1, 7);
      Iterate(Shift, x >> 2, 6);
      Iterate(Shift, x >> 3, 5);
      Iterate(Shift, x >> 4, 4);
      Iterate(Shift, x >> 5, 3);
      Iterate(Shift, x >> 6, 2);
      Iterate(Shift, x >> 7, 1);
      Iterate(Shift, x >> 8, 0);
    }
  }

  lemma ShiftsLinear(a: bv32, b: bv32)
    ensures Iterate(Shift, Xor(a, b), 8) == Xor(Iterate(Shift, a, 8), Iterate(Shift, b, 8))
  {
    hide *;
    forall y, z ensures Shift(Xor(y, z)) == Xor(Shift(y), Shift(z)) {
      ShiftLinear(y, z);
    }
    IterateLinear(Shift, Xor, a, b, 8);
  }

  lemma SplitLowByte(x: bv32)
    ensures x == Xor(HighBytes(x), LowByte(x))
    ensures HighBytes(x) & 0xFF == 0
  {}

  lemma HighBytesOfState(c: bv32, b: bv8)
    ensures ByteDown(HighBytes(Xor(c, Word(b)))) == ByteDown(c)
  {}

  /** The table's entry for the low byte, mixed with the other bytes moved down, is eight bit steps. */
  lemma TableStep(c: bv32, b: bv8)
    ensures Xor(ByteDown(c), Iterate(Shift, LowByte(Xor(c, Word(b))), 8)) == Run(BitStep, c, ByteBits(b))
  {
    hide *;
    var x := Xor(c, Word(b));
    SplitLowByte(x);
    HighBytesOfState(c, b);
    ShiftsLinear(HighBytes(x), LowByte(x));
    HighBytesMoveDown(HighBytes(x));
    ShiftsFeedByte(c, b);
  }

  function Index(x: bv32): (n: nat)
    ensures n < 256
  {
    LowByte(x) as bv8 as int
  }

  /** The table entry for index `n`. */
  function Entry(n: nat): bv32
    requires n < 256
  {
    Iterate(Shift, Word(n as bv8), 8)
  }

  lemma LowByteFits(x: bv32)
    ensures LowByte(x) <= 0xFF
  {}

  lemma ByteRoundTrip(b: bv8)
    ensures (b as int) as bv8 == b
  {}

  lemma IndexOfByte(x: bv32)
    ensures Word(Index(x) as bv8) == LowByte(x)
  {
    hide Word, LowByte;
    WordOfByte(x);
    LowByteFits(x);
    ByteRoundTrip(LowByte(x) as bv8);
  }

  lemma WordOfByte(x: bv32)
    ensures Word(LowByte(x) as bv8) == LowByte(x)
  {}

  lemma EntryDef(n: nat)
    requires n < 256
    ensures Entry(n) == Iterate(Shift, Word(n as bv8), 8)
  {}

  /** The lookup table: each entry is eight shifts of its index. */
  method BuildTable() returns (table: array<bv32>)
    ensures table.Length == 256
    ensures forall n :: 0 <= n < 256 ==> table[n] == Entry(n)
  {
    hide Shift, Word, Entry;
    table := new bv32[256];
    for n := 0 to 256
      invariant forall m :: 0 <= m < n ==> table[m] == Entry(m)
    {
      var c := Word(n as bv8);
      EntryDef(n);
      for k := 0 to 8
        invariant Iterate(Shift, c, 8 - k) == Entry(n)
      {
        c := Shift(c);
      }
      table[n] := c;
    }
  }

  lemma RunNextByte(bytes: seq<bv8>, i: nat)
    requires i < |bytes|
    ensures Run(BitStep, ONES, Bits(bytes[..i + 1]))
         == Run(BitStep, Run(BitStep, ONES, Bits(bytes[..i])), ByteBits(bytes[i]))
  {
    hide Run, BitStep, ByteBits;
    assert bytes[..i + 1] == bytes[..i] + [bytes[i]];
    FlatConcat(ByteBits, bytes[..i], [bytes[i]]);
    assert Flat(ByteBits, [bytes[i]]) == ByteBits(bytes[i]) + [];
    assert Bits(bytes[..i + 1]) == Bits(bytes[..i]) + ByteBits(bytes[i]);
    RunConcat(BitStep, ONES, Bits(bytes[..i]), ByteBits(bytes[i]));
  }

  lemma TableRound(crc: bv32, b: bv8)
    ensures Xor(ByteDown(crc), Entry(Index(Xor(crc, Word(b))))) == Run(BitStep, crc, ByteBits(b))
  {
    hide Run, BitStep, ByteBits, Shift, Iterate, Xor, Word, ByteDown, LowByte;
    TableStep(crc, b);
    IndexOfByte(Xor(crc, Word(b)));
  }

  /** The checksum loop returns the bit-serial CRC-32, for every byte sequence. */
  method TableCrc(bytes: seq<bv8>) returns (crc: bv32)
    ensures crc == Crc(bytes)
  {
    hide Run, BitStep, ByteBits, Bits, Entry, Xor, ByteDown, Word;
    var table := BuildTable();
    crc := ONES;
    RunNothing();
    assert bytes[..0] == [];
    for i := 0 to |bytes|
      invariant forall n :: 0 <= n < 256 ==> table[n] == Entry(n)
      invariant crc == Run(BitStep, ONES, Bits(bytes[..i]))
    {
      RunNextByte(bytes, i);
      TableRound(crc, bytes[i]);
      crc := Xor(ByteDown(crc), table[Index(Xor(crc, Word(bytes[i])))]);
    }
    assert bytes[..|bytes|] == bytes;
    crc := Xor(crc, ONES);
  }

  lemma RunNothing()
    ensures Run(BitStep, ONES, Bits([])) == ONES
  {}

  // ------------------------------------------------------------------ error bursts

  /** The word with all bits set except the `n` lowest. */
  function HighMask(n: nat): bv32 {
    Iterate(Up, ONES, n)
  }

  predicate Fits(r: bv32, n: nat) {
    r & HighMask(n) == 0
  }

  function PackBit(r: bv32, a: bool, b: bool): bv32 {
    Xor(Xor(Up(r), BitWord(b)), BitWord(a))
  }

  lemma MaskStep(r: bv32, m: bv32, a: bool, b: bool)
    requires r & m == 0
    ensures PackBit(r, a, b) & Up(m) == 0
  {}

  lemma FitsStep(r: bv32, n: nat, a: bool, b: bool)
    requires Fits(r, n)
    ensures Fits(PackBit(r, a, b), n + 1)
  {
    hide PackBit, Up, Iterate;
    IterateSnoc(Up, ONES, n);
    MaskStep(r, HighMask(n), a, b);
  }

  lemma FitsFacts()
    ensures forall n :: Fits(0, n)
    ensures forall r, n: nat, a, b :: Fits(r, n) ==> Fits(PackBit(r, a, b), n + 1)
  {
    forall n ensures Fits(0, n) {
      assert 0 & HighMask(n) == 0;
    }
    forall r, n: nat, a, b | Fits(r, n) ensures Fits(PackBit(r, a, b), n + 1) {
      FitsStep(r, n, a, b);
    }
  }

  lemma UpFour(m: bv32, n: nat)
    requires n >= 4
    ensures Iterate(Up, m, n) == Iterate(Up, m << 4, n - 4)
  {
    assert (m << 1) << 1 == m << 2 && (m << 2) << 1 == m << 3 && (m << 3) << 1 == m << 4;
    calc {
      Iterate(Up, m, n);
      Iterate(Up, m << 1, n - 1);
      Iterate(Up, m << 2, n - 2);
      Iterate(Up, m << 3, n - 3);
      Iterate(Up, m << 4, n - 4);
    }
  }

  lemma UpThree(m: bv32)
    ensures Iterate(Up, m, 3) == m << 3
  {
    assert (m << 1) << 1 == m << 2 && (m << 2) << 1 == m << 3;
    calc {
      Iterate(Up, m, 3);
      Iterate(Up, m << 1, 2);
      Iterate(Up, m << 2, 1);
      Iterate(Up, m << 3, 0);
    }
  }

  lemma TopMask()
    ensures HighMask(31) == TOP
  {
    UpFour(0xFFFFFFFF, 31);
    UpFour(0xFFFFFFF0, 27);
    UpFour(0xFFFFFF00, 23);
    UpFour(0xFFFFF000, 19);
    UpFour(0xFFFF0000, 15);
    UpFour(0xFFF00000, 11);
    UpFour(0xFF000000, 7);
    UpThree(0xF0000000);
  }

  lemma ShiftUp(x: bv32, r: bv32)
    requires r & TOP == 0
    ensures Shift(Up(r)) == r
  {}

  lemma XorRegroup(a: bv32, b: bv32, c: bv32, d: bv32)
    ensures Xor(Xor(c, a), Xor(d, b)) == Xor(Xor(Xor(c, d), a), b)
  {
    hide *;
    XorAssociative(Xor(c, a), d, b);
    XorAssociative(c, a, d);
    XorCommutes(a, d);
    XorAssociative(c, d, a);
  }

  lemma XorMoves(a: bv32, b: bv32, c: bv32, d: bv32, r: bv32)
    ensures Xor(Xor(c, a), Xor(d, b)) == r <==> Xor(c, d) == Xor(Xor(r, b), a)
  {
    hide *;
    XorRegroup(a, b, c, d);
    XorUndo(Xor(Xor(c, d), a), b);
    XorUndo(Xor(c, d), a);
    XorUndo(Xor(r, b), a);
    XorUndo(r, b);
  }

  lemma BitStepsMeet(c: bv32, d: bv32, a: bool, b: bool, r: bv32)
    requires r & TOP == 0
    ensures Xor(BitStep(c, a), BitStep(d, b)) == r <==> Xor(c, d) == PackBit(r, a, b)
  {
    hide Shift, Xor, BitWord, Up;
    var x, y := Xor(c, BitWord(a)), Xor(d, BitWord(b));
    ShiftLinear(x, y);
    ShiftUp(x, r);
    if Shift(Xor(x, y)) == r {
      ShiftInjective(Xor(x, y), Up(r));
    }
    XorMoves(BitWord(a), BitWord(b), c, d, Up(r));
  }

  lemma PackBitZero(r: bv32, a: bool, b: bool)
    requires r & TOP == 0 && PackBit(r, a, b) == 0
    ensures r == 0 && a == b
  {}

  /** Over at most 32 bits, runs from one state end alike only on equal bits. */
  lemma BurstSeparates(c: bv32, u: seq<bool>, v: seq<bool>)
    requires |u| == |v| <= 32
    requires Run(BitStep, c, u) == Run(BitStep, c, v)
    ensures u == v
  {
    FitsFacts();
    TopMask();
    forall x, y ensures Xor(x, y) == 0 <==> x == y {
      XorIsZero(x, y);
    }
    forall x, y, a, b, r | Fits(r, 31)
      ensures Xor(BitStep(x, a), BitStep(y, b)) == r <==> Xor(x, y) == PackBit(r, a, b)
    {
      BitStepsMeet(x, y, a, b, r);
    }
    RunsMeet(BitStep, Xor, PackBit, 0, Fits, c, c, u, v, 31);
    forall r, a, b | Fits(r, 31) && PackBit(r, a, b) == 0 ensures r == 0 && a == b {
      PackBitZero(r, a, b);
    }
    PackZero(PackBit, 0, Fits, u, v, 31);
  }

  /**
   * Two messages that differ only inside one window of at most 32 consecutive bits, wherever the
   * window lies, have different checksums.
   */
  lemma BurstChangesCrc(x: seq<bv8>, y: seq<bv8>, prefix: seq<bool>, u: seq<bool>, v: seq<bool>, suffix: seq<bool>)
    requires Bits(x) == prefix + u + suffix && Bits(y) == prefix + v + suffix
    requires |u| == |v| <= 32 && u != v
    ensures Crc(x) != Crc(y)
  {
    if Crc(x) == Crc(y) {
      var c := Run(BitStep, ONES, prefix);
      RunConcat(BitStep, ONES, prefix + u, suffix);
      RunConcat(BitStep, ONES, prefix, u);
      RunConcat(BitStep, ONES, prefix + v, suffix);
      RunConcat(BitStep, ONES, prefix, v);
      XorCancels(Run(BitStep, ONES, Bits(x)), Run(BitStep, ONES, Bits(y)), ONES);
      forall x, y, b | BitStep(x, b) == BitStep(y, b) ensures x == y {
        BitStepInjective(x, y, b);
      }
      RunInjective(BitStep, Run(BitStep, c, u), Run(BitStep, c, v), suffix);
      BurstSeparates(c, u, v);
      assert false;
    }
  }

  lemma ByteBitsInjective(a: bv8, b: bv8)
    requires ByteBits(a) == ByteBits(b)
    ensures a == b
  {
    ShiftsFeedByte(0, a);
    ShiftsFeedByte(0, b);
    forall x, y | Shift(x) == Shift(y) ensures x == y {
      UnshiftShift(x);
      UnshiftShift(y);
    }
    IterateInjective(Shift, Xor(0, Word(a)), Xor(0, Word(b)), 8);
    XorZero(Word(a));
    XorZero(Word(b));
    WordInjective(a, b);
  }

  lemma WordInjective(a: bv8, b: bv8)
    requires Word(a) == Word(b)
    ensures a == b
  {}

  /** An edit confined to at most four consecutive bytes always changes the checksum. */
  lemma WindowEditChangesCrc(prefix: seq<bv8>, u: seq<bv8>, v: seq<bv8>, suffix: seq<bv8>)
    requires |u| == |v| <= 4 && u != v
    ensures Crc(prefix + u + suffix) != Crc(prefix + v + suffix)
  {
    FlatConcat(ByteBits, prefix + u, suffix);
    FlatConcat(ByteBits, prefix, u);
    FlatConcat(ByteBits, prefix + v, suffix);
    FlatConcat(ByteBits, prefix, v);
    FlatLength(ByteBits, u, 8);
    FlatLength(ByteBits, v, 8);
    if Bits(u) == Bits(v) {
      forall a, b | ByteBits(a) == ByteBits(b) ensures a == b {
        ByteBitsInjective(a, b);
      }
      FlatInjective(ByteBits, u, v, 8);
    }
    BurstChangesCrc(prefix + u + suffix, prefix + v + suffix, Bits(prefix), Bits(u), Bits(v), Bits(suffix));
  }

  // ------------------------------------------------------------------ one checksum in full

  lemma ShiftOnce(x: bv32, y: bv32, n: nat)
    requires n >= 1 && Shift(x) == y
    ensures Iterate(Shift, x, n) == Iterate(Shift, y, n - 1)
  {}

  lemma LineFeedShifts()
    ensures
      && Shift(0xFFFFFFF5) == 0x92477CDA
      && Shift(0x92477CDA) == 0x4923BE6D
      && Shift(0x4923BE6D) == 0xC9295C16
      && Shift(0xC9295C16) == 0x6494AE0B
      && Shift(0x6494AE0B) == 0xDFF2D425
      && Shift(0xDFF2D425) == 0x8241E932
      && Shift(0x8241E932) == 0x4120F499
      && Shift(0x4120F499) == 0xCD28F96C
      && Xor(ONES, Word(0x0A)) == 0xFFFFFFF5 && Xor(0xCD28F96C, ONES) == 0x32D70693
  {}

  /** The checksum of a single line feed. */
  lemma LineFeedCrc()
    ensures Crc([0x0A]) == 0x32D70693
  {
    hide Shift, Xor, Word, BitStep, ByteBits;
    LineFeedShifts();
    ShiftOnce(0xFFFFFFF5, 0x92477CDA, 8);
    ShiftOnce(0x92477CDA, 0x4923BE6D, 7);
    ShiftOnce(0x4923BE6D, 0xC9295C16, 6);
    ShiftOnce(0xC9295C16, 0x6494AE0B, 5);
    ShiftOnce(0x6494AE0B, 0xDFF2D425, 4);
    ShiftOnce(0xDFF2D425, 0x8241E932, 3);
    ShiftOnce(0x8241E932, 0x4120F499, 2);
    ShiftOnce(0x4120F499, 0xCD28F96C, 1);
    ShiftsFeedByte(ONES, 0x0A);
    assert [0x0A as bv8][1..] == [];
    assert Bits([0x0A]) == ByteBits(0x0A) + [] == ByteBits(0x0A);
  }

  /** A second line feed changes the checksum of the first. */
  lemma SecondLineFeedCounts()
    ensures Crc([0x0A, 0x0A]) != Crc([0x0A])
  {
    hide BitStep, ByteBits, Xor;
    LineFeedCrc();
    XorSelf(ONES);
    var bits := ByteBits(0x0A);
    assert [0x0A as bv8][1..] == [] && [0x0A as bv8, 0x0A][1..] == [0x0A as bv8];
    assert Bits([0x0A]) == bits + [] == bits;
    assert Bits([0x0A, 0x0A]) == bits + bits;
    RunConcat(BitStep, ONES, bits, bits);
    if Crc([0x0A, 0x0A]) == Crc([0x0A]) {
      XorCancels(Run(BitStep, ONES, bits + bits), Run(BitStep, ONES, bits), ONES);
      forall x, y, b | BitStep(x, b) == BitStep(y, b) ensures x == y {
        BitStepInjective(x, y, b);
      }
      RunInjective(BitStep, Run(BitStep, ONES, bits), ONES, bits);
    }
  }
}
