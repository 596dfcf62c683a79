/** The table-driven CRC-32 against the bit-serial shift register.

    The generator polynomial is that of section 3.2.9 of IEEE Std 802.3-2012,
    used most significant bit first. The operators on words have names so that
    proofs can hide their bit-level definitions. */
module Crc {

  const CRC32_POLY: bv32 := 0x04c1_1db7

  function Xor(a: bv32, b: bv32): bv32 { a ^ b }

  function Not(a: bv32): bv32 { !a }

  predicate Top(c: bv32) { c & 0x8000_0000 != 0 }

  function Double(c: bv32): bv32 { c << 1 }

  function Times256(c: bv32): bv32 { c << 8 }

  function High(b: bv8): bv32 { (b as bv32) << 24 }

  // ----- the bit-serial definition -----

  /** The shift register clocked once with the message bit `bit`. */
  function ClockBit(c: bv32, bit: bool): bv32 {
    if Top(c) != bit then Xor(Double(c), CRC32_POLY) else Double(c)
  }

  function ClockBits(c: bv32, bits: seq<bool>): bv32
    decreases |bits|
  {
    if bits == [] then c else ClockBits(ClockBit(c, bits[0]), bits[1..])
  }

  /** The bits of a byte, most significant first. */
  function BitsOf(b: bv8): seq<bool> {
    [b & 0x80 != 0, b & 0x40 != 0, b & 0x20 != 0, b & 0x10 != 0,
     b & 0x08 != 0, b & 0x04 != 0, b & 0x02 != 0, b & 0x01 != 0]
  }

  /** The bits of a message in transmission order. */
  function MessageBits(buf: seq<bv8>): seq<bool> {
    if buf == [] then [] else BitsOf(buf[0]) + MessageBits(buf[1..])
  }

  /** The CRC of a message as the shift register computes it. */
  function SerialCrc(buf: seq<bv8>): bv32 {
    Not(ClockBits(0xffff_ffff, MessageBits(buf)))
  }

  // ----- one byte at a time -----

  /** The register clocked once with a zero bit. */
  function Shift(c: bv32): bv32 { ClockBit(c, false) }

  function Shifts(c: bv32, n: nat): bv32
    decreases n
  {
    if n == 0 then c else Shifts(Shift(c), n - 1)
  }

  function ByteStep(c: bv32, b: bv8): bv32 { Shifts(Xor(c, High(b)), 8) }

  function ByteSteps(c: bv32, buf: seq<bv8>): bv32
    decreases |buf|
  {
    if buf == [] then c else ByteSteps(ByteStep(c, buf[0]), buf[1..])
  }

  lemma XorComm(a: bv32, b: bv32)
    ensures Xor(a, b) == Xor(b, a)
  {
  }

  lemma XorAssoc(a: bv32, b: bv32, c: bv32)
    ensures Xor(Xor(a, b), c) == Xor(a, Xor(b, c))
  {
  }

  lemma XorSelf(a: bv32)
    ensures Xor(a, a) == 0 && Xor(a, 0) == a
  {
  }

  lemma XorLaws(a: bv32, b: bv32, c: bv32)
    ensures Xor(a, b) == Xor(b, a) == Xor(Xor(a, c), Xor(b, c))
    ensures Xor(Xor(a, b), c) == Xor(Xor(a, c), b) == Xor(a, Xor(b, c))
    ensures Xor(a, 0) == a && Xor(Xor(a, b), b) == a
  {
    hide Xor;
    XorComm(a, b);
    XorComm(b, c);
    XorAssoc(a, b, c);
    XorAssoc(a, c, b);
    XorSelf(a);
    XorSelf(b);
    XorAssoc(a, b, b);
    XorSelf(c);
    XorAssoc(a, c, Xor(b, c));
    XorComm(c, Xor(b, c));
    XorAssoc(b, c, c);
  }

  lemma TopOfXor(a: bv32, b: bv32)
    ensures Top(Xor(a, b)) == (Top(a) != Top(b))
  {
  }

  lemma DoubleOfXor(a: bv32, b: bv32)
    ensures Double(Xor(a, b)) == Xor(Double(a), Double(b))
  {
  }

  /** Clocking in a bit is the same as adding it to the top of the register and
      clocking in a zero; the bits below it are carried along. */
  lemma ClockBitIsShift(c: bv32, w: bv32)
    ensures Shift(Xor(c, w)) == Xor(ClockBit(c, Top(w)), Double(w))
  {
    hide Xor, Top, Double;
    TopOfXor(c, w);
    DoubleOfXor(c, w);
    XorLaws(Double(c), Double(w), CRC32_POLY);
  }

  lemma {:induction false} ClockBitsAppend(c: bv32, s: seq<bool>, t: seq<bool>)
    ensures ClockBits(c, s + t) == ClockBits(ClockBits(c, s), t)
    decreases |s|
  {
    hide ClockBit;
    if s == [] {
      assert s + t == t;
    } else {
      assert (s + t)[1..] == s[1..] + t;
      ClockBitsAppend(ClockBit(c, s[0]), s[1..], t);
    }
  }

  /** The top bit of each doubling of the byte in the high position. */
  lemma TopBits(b: bv8)
    ensures var w0 := High(b); var w1 := Double(w0); var w2 := Double(w1); var w3 := Double(w2);
            var w4 := Double(w3); var w5 := Double(w4); var w6 := Double(w5); var w7 := Double(w6);
            BitsOf(b) == [Top(w0), Top(w1), Top(w2), Top(w3), Top(w4), Top(w5), Top(w6), Top(w7)]
            && Double(w7) == 0
  {
  }

  lemma ClockEight(c: bv32, s: seq<bool>)
    requires |s| == 8
    ensures ClockBits(c, s)
         == ClockBit(ClockBit(ClockBit(ClockBit(ClockBit(ClockBit(ClockBit(ClockBit(c, s[0]), s[1]), s[2]), s[3]),
             s[4]), s[5]), s[6]), s[7])
  {
    hide ClockBit;
    ClockTwo(c, s);
    var c2 := ClockBit(ClockBit(c, s[0]), s[1]);
    ClockTwo(c2, s[2..]);
    var c4 := ClockBit(ClockBit(c2, s[2]), s[3]);
    assert s[2..][2..] == s[4..];
    ClockTwo(c4, s[4..]);
    var c6 := ClockBit(ClockBit(c4, s[4]), s[5]);
    assert s[4..][2..] == s[6..];
    ClockTwo(c6, s[6..]);
    assert s[6..][2..] == [];
  }

  lemma ClockTwo(c: bv32, s: seq<bool>)
    requires |s| >= 2
    ensures ClockBits(c, s) == ClockBits(ClockBit(ClockBit(c, s[0]), s[1]), s[2..])
  {
    hide ClockBit;
    assert s[1..][1..] == s[2..];
  }

  lemma ShiftEight(c: bv32)
    ensures Shifts(c, 8) == Shift(Shift(Shift(Shift(Shift(Shift(Shift(Shift(c))))))))
  {
    hide Shift;
    assert Shifts(c, 8) == Shifts(Shift(Shift(c)), 6);
    assert Shifts(Shift(Shift(c)), 6) == Shifts(Shift(Shift(Shift(Shift(c)))), 4);
    assert Shifts(Shift(Shift(Shift(Shift(c)))), 4) == Shifts(Shift(Shift(Shift(Shift(Shift(Shift(c)))))), 2);
  }

  lemma ByteStepIsSerial(c: bv32, b: bv8)
    ensures ByteStep(c, b) == ClockBits(c, BitsOf(b))
  {
    hide ClockBit, Shift, Shifts, Xor, Double, High, BitsOf, Top;
    var w0 := High(b);
    var w1 := Double(w0);
    var w2 := Double(w1);
    var w3 := Double(w2);
    var w4 := Double(w3);
    var w5 := Double(w4);
    var w6 := Double(w5);
    var w7 := Double(w6);
    TopBits(b);
    ClockEight(c, BitsOf(b));
    ShiftEight(Xor(c, w0));
    var c1 := ClockBit(c, Top(w0));
    var c2 := ClockBit(c1, Top(w1));
    var c3 := ClockBit(c2, Top(w2));
    var c4 := ClockBit(c3, Top(w3));
    var c5 := ClockBit(c4, Top(w4));
    var c6 := ClockBit(c5, Top(w5));
    var c7 := ClockBit(c6, Top(w6));
    ClockBitIsShift(c, w0);
    ClockBitIsShift(c1, w1);
    ClockBitIsShift(c2, w2);
    ClockBitIsShift(c3, w3);
    ClockBitIsShift(c4, w4);
    ClockBitIsShift(c5, w5);
    ClockBitIsShift(c6, w6);
    ClockBitIsShift(c7, w7);
    XorLaws(ClockBit(c7, Top(w7)), 0, 0);
  }

  lemma {:induction false} ByteStepsAreSerial(c: bv32, buf: seq<bv8>)
    ensures ByteSteps(c, buf) == ClockBits(c, MessageBits(buf))
    decreases |buf|
  {
    hide ByteStep, BitsOf, ClockBit;
    if buf != [] {
      ByteStepIsSerial(c, buf[0]);
      ClockBitsAppend(c, BitsOf(buf[0]), MessageBits(buf[1..]));
      ByteStepsAreSerial(ByteStep(c, buf[0]), buf[1..]);
    }
  }

  // ----- the table -----

  lemma ShiftLinear(a: bv32, b: bv32)
    ensures Shift(Xor(a, b)) == Xor(Shift(a), Shift(b))
  {
    hide Xor, Top, Double;
    TopOfXor(a, b);
    DoubleOfXor(a, b);
    XorLaws(Double(a), Double(b), CRC32_POLY);
  }

  lemma {:induction false} ShiftsLinear(a: bv32, b: bv32, n: nat)
    ensures Shifts(Xor(a, b), n) == Xor(Shifts(a, n), Shifts(b, n))
    decreases n
  {
    hide Shift, Xor;
    if n > 0 {
      ShiftLinear(a, b);
      ShiftsLinear(Shift(a), Shift(b), n - 1);
    }
  }

  /** A word whose top byte is clear. */
  predicate Low(w: bv32) { w & 0xff00_0000 == 0 }

  lemma LowDoubles(w: bv32)
    requires Low(w)
    ensures var w1 := Double(w); var w2 := Double(w1); var w3 := Double(w2);
            var w4 := Double(w3); var w5 := Double(w4); var w6 := Double(w5); var w7 := Double(w6);
            && !Top(w) && !Top(w1) && !Top(w2) && !Top(w3) && !Top(w4) && !Top(w5) && !Top(w6) && !Top(w7)
            && Double(w7) == Times256(w)
  {
  }

  lemma LowShifts(w: bv32)
    requires Low(w)
    ensures Shifts(w, 8) == Times256(w)
  {
    hide Low, Double, Top, Times256, Xor, Shifts;
    LowDoubles(w);
    ShiftEight(w);
  }

  /** The table index for the next byte. */
  function Index(c: bv32, b: bv8): bv32 { (c >> 24) ^ (b as bv32) }

  function LowPart(c: bv32): bv32 { c & 0x00ff_ffff }

  function IndexWord(i: bv32): bv32 { i << 24 }

  lemma IndexWordOfXor(c: bv32, b: bv8)
    ensures IndexWord(Index(c, b)) == Xor(IndexWord(c >> 24), High(b))
  {
  }

  /** The register is its low 24 bits, with the rest carried by the table index. */
  lemma PartsOf(c: bv32)
    ensures c == Xor(LowPart(c), IndexWord(c >> 24))
  {
  }

  lemma LowPartIsLow(c: bv32)
    ensures Low(LowPart(c)) && Times256(LowPart(c)) == Times256(c)
  {
  }

  /** A byte step is one table look-up. */
  lemma TableStep(c: bv32, b: bv8)
    ensures ByteStep(c, b) == Xor(Times256(c), Shifts(IndexWord(Index(c, b)), 8))
  {
    hide Xor, High, LowPart, IndexWord, Index, Low, Times256, Shifts;
    IndexWordOfXor(c, b);
    PartsOf(c);
    LowPartIsLow(c);
    XorAssoc(LowPart(c), IndexWord(c >> 24), High(b));
    LowShifts(LowPart(c));
    ShiftsLinear(LowPart(c), IndexWord(Index(c, b)), 8);
  }

  /** The table entry for index `i`. */
  function Entry(i: int): bv32
    requires 0 <= i < 256
  {
    Shifts(IndexWord(i as bv32), 8)
  }

  lemma IndexInRange(c: bv32, b: bv8)
    ensures Index(c, b) < 256
  {
  }

  lemma WordAsIndex(i: bv32)
    ensures (i as int) as bv32 == i
  {
  }

  lemma SecondEntry()
    ensures Entry(1) == CRC32_POLY
  {
    ShiftEight(IndexWord(1));
  }

  /** The table is the static array of the source: zero until the first use. */
  class Crc32 {
    const table: array<bv32>

    ghost predicate Built()
      reads table
    {
      table.Length == 256 && forall i :: 0 <= i < 256 ==> table[i] == Entry(i)
    }

    /** What every call finds: either the table is untouched or it is complete. */
    ghost predicate Valid()
      reads table
    {
      table.Length == 256 && (table[1] != 0 ==> Built())
    }

    constructor ()
      ensures Valid() && fresh(table)
    {
      table := new bv32[256](i => 0);
    }

    method InitTable()
      requires table.Length == 256
      modifies table
      ensures Built()
    {
      hide Xor, Double, Top;
      for i := 0 to 256
        invariant forall k :: 0 <= k < i ==> table[k] == Entry(k)
      {
        var c := IndexWord(i as bv32);
        var j := 8;
        while j > 0
          invariant 0 <= j <= 8
          invariant Shifts(c, j) == Entry(i)
        {
          c := if Top(c) then Xor(Double(c), CRC32_POLY) else Double(c);
          j := j - 1;
        }
        table[i] := c;
      }
    }

    /** The checksum; the table is built on the first call and never again. */
    method Compute(buf: seq<bv8>, len: int) returns (r: bv32)
      requires Valid() && len <= |buf|
      modifies table
      ensures Built() && Valid() && table[1] != 0
      ensures old(table[1]) != 0 ==> table[..] == old(table[..])
      ensures r == SerialCrc(if len < 0 then [] else buf[..len])
    {
      hide Not, Xor, Times256, Index, ByteStep, IndexWord;
      if table[1] == 0 {
        InitTable();
      }
      ghost var n := if len < 0 then 0 else len;
      var crc: bv32 := 0xffff_ffff;
      var p, rest := 0, len;
      assert buf[0..n] == buf[..n];
      while rest > 0
        invariant 0 <= p <= n && (rest > 0 ==> p + rest == n) && (rest <= 0 ==> p == n)
        invariant Built() && (old(table[1]) != 0 ==> table[..] == old(table[..]))
        invariant ByteSteps(crc, buf[p..n]) == ByteSteps(0xffff_ffff, buf[..n])
      {
        assert buf[p..n][1..] == buf[p + 1..n];
        TableStep(crc, buf[p]);
        IndexInRange(crc, buf[p]);
        WordAsIndex(Index(crc, buf[p]));
        crc := Xor(Times256(crc), table[Index(crc, buf[p]) as int]);
        p, rest := p + 1, rest - 1;
      }
      ByteStepsAreSerial(0xffff_ffff, buf[..n]);
      SecondEntry();
      r := Not(crc);
    }
  }

  // ----- the polynomial -----

  function Term(e: nat): bv32
    requires e < 32
  {
    1 << e
  }

  /** The generator is x^32 + x^26 + x^23 + x^22 + x^16 + x^12 + x^11 + x^10 + x^8 + x^7 + x^5
      + x^4 + x^2 + x + 1, the leading term being the bit that is shifted out. */
  lemma PolynomialTerms()
    ensures CRC32_POLY == Term(26) | Term(23) | Term(22) | Term(16) | Term(12) | Term(11) | Term(10)
                          | Term(8) | Term(7) | Term(5) | Term(4) | Term(2) | Term(1) | Term(0)
  {
  }

  /** The checksum of the one letter a. */
  lemma ChecksumOfA()
    ensures SerialCrc([0x61]) == 0x1993_9b6b
  {
    ByteStepsAreSerial(0xffff_ffff, [0x61]);
    assert [0x61 as bv8][1..] == [];
  }

  // ----- detection of bursts -----

  /** The inverse of Shift: the low bit of the result tells whether the polynomial was added. */
  function Unshift(c: bv32): bv32 {
    if Odd(c) then TopHalve(Xor(c, CRC32_POLY)) else Halve(c)
  }

  function Halve(c: bv32): bv32 { c >> 1 }

  function TopHalve(c: bv32): bv32 { (c >> 1) | 0x8000_0000 }

  predicate Odd(c: bv32) { c & 1 != 0 }

  lemma DoubleIsEven(c: bv32)
    ensures !Odd(Double(c))
  {
  }

  lemma HalveDouble(c: bv32)
    requires !Top(c)
    ensures Halve(Double(c)) == c
  {
  }

  lemma TopHalveDouble(c: bv32)
    requires Top(c)
    ensures TopHalve(Double(c)) == c
  {
  }

  lemma DoubleHalve(c: bv32)
    requires !Odd(c)
    ensures !Top(Halve(c)) && Double(Halve(c)) == c
  {
  }

  lemma TopHalveTop(c: bv32)
    ensures Top(TopHalve(c))
  {
  }

  lemma DoubleTopHalve(c: bv32)
    requires !Odd(c)
    ensures Double(TopHalve(c)) == c
  {
  }

  lemma OddPoly(c: bv32)
    ensures Odd(Xor(c, CRC32_POLY)) == !Odd(c)
  {
  }

  /** One clock of the register is a bijection on 32-bit states. */
  lemma ShiftBijection(c: bv32)
    ensures Unshift(Shift(c)) == c && Shift(Unshift(c)) == c
  {
    hide Xor, Double, Top, Halve, TopHalve, Odd;
    DoubleIsEven(c);
    OddPoly(Double(c));
    XorLaws(Double(c), CRC32_POLY, 0);
    if Top(c) {
      TopHalveDouble(c);
    } else {
      HalveDouble(c);
    }
    OddPoly(c);
    XorLaws(c, CRC32_POLY, 0);
    if Odd(c) {
      TopHalveTop(Xor(c, CRC32_POLY));
      DoubleTopHalve(Xor(c, CRC32_POLY));
    } else {
      DoubleHalve(c);
    }
  }

  lemma {:induction false} ShiftsInjective(a: bv32, b: bv32, n: nat)
    requires Shifts(a, n) == Shifts(b, n)
    ensures a == b
    decreases n
  {
    hide Shift, Unshift;
    if n > 0 {
      ShiftsInjective(Shift(a), Shift(b), n - 1);
      ShiftBijection(a);
      ShiftBijection(b);
    }
  }

  lemma {:induction false} ByteStepsInjective(a: bv32, b: bv32, buf: seq<bv8>)
    requires ByteSteps(a, buf) == ByteSteps(b, buf)
    ensures a == b
    decreases |buf|
  {
    hide Shifts, Xor, High;
    if buf != [] {
      ByteStepsInjective(ByteStep(a, buf[0]), ByteStep(b, buf[0]), buf[1..]);
      var w := High(buf[0]);
      ShiftsInjective(Xor(a, w), Xor(b, w), 8);
      XorLaws(a, w, 0);
      XorLaws(b, w, 0);
    }
  }

  lemma {:induction false} ByteStepsAppend(c: bv32, s: seq<bv8>, t: seq<bv8>)
    ensures ByteSteps(c, s + t) == ByteSteps(ByteSteps(c, s), t)
    decreases |s|
  {
    hide ByteStep;
    if s == [] {
      assert s + t == t;
    } else {
      assert (s + t)[1..] == s[1..] + t;
      ByteStepsAppend(ByteStep(c, s[0]), s[1..], t);
    }
  }

  lemma {:induction false} ShiftsAdd(c: bv32, m: nat, n: nat)
    ensures Shifts(Shifts(c, m), n) == Shifts(c, m + n)
    decreases m
  {
    hide Shift;
    if m > 0 {
      ShiftsAdd(Shift(c), m - 1, n);
    }
  }

  /** A word delayed by eight clocks can be added to the register now. */
  lemma Delay(c: bv32, w: bv32)
    requires Low(w)
    ensures Xor(Shifts(c, 8), Times256(w)) == Shifts(Xor(c, w), 8)
  {
    hide Shifts, Xor, Times256, Low;
    LowShifts(w);
    ShiftsLinear(c, w, 8);
  }

  /** A byte in front of a word that is still to come. */
  function Before(b: bv8, rest: bv32): bv32 { Xor(High(b), rest) }

  /** The last one, two, three of four bytes, in place behind the bytes before them. */
  function Tail3(b3: bv8): bv32 { b3 as bv32 }

  function Tail2(b2: bv8, b3: bv8): bv32 { ((b2 as bv32) << 8) ^ (b3 as bv32) }

  function Tail1(b1: bv8, b2: bv8, b3: bv8): bv32 {
    ((b1 as bv32) << 16) ^ (((b2 as bv32) << 8) ^ (b3 as bv32))
  }

  /** Four bytes as one word, most significant first. */
  function Pack(b0: bv8, b1: bv8, b2: bv8, b3: bv8): bv32 { Before(b0, Tail1(b1, b2, b3)) }

  lemma TailShift1(b1: bv8, b2: bv8, b3: bv8)
    ensures Low(Tail1(b1, b2, b3)) && Times256(Tail1(b1, b2, b3)) == Before(b1, Times256(Tail2(b2, b3)))
  {
  }

  lemma TailShift2(b2: bv8, b3: bv8)
    ensures Low(Times256(Tail2(b2, b3)))
    ensures Times256(Times256(Tail2(b2, b3))) == Before(b2, Times256(Times256(Tail3(b3))))
  {
  }

  lemma TailShift3(b3: bv8)
    ensures Low(Times256(Times256(Tail3(b3))))
    ensures Times256(Times256(Times256(Tail3(b3)))) == High(b3)
  {
  }

  /** One byte step with the rest of the word already in the register. */
  lemma StepBefore(c: bv32, b: bv8, rest: bv32)
    requires Low(rest)
    ensures Shifts(Xor(c, Before(b, rest)), 8) == Xor(ByteStep(c, b), Times256(rest))
  {
    hide Shifts, Xor, High, Times256, Low;
    XorLaws(c, High(b), rest);
    Delay(Xor(c, High(b)), rest);
  }

  /** Four bytes fed in one by one are one 32-bit word added at once. */
  lemma FourBytes(c: bv32, b0: bv8, b1: bv8, b2: bv8, b3: bv8)
    ensures ByteSteps(c, [b0, b1, b2, b3]) == Shifts(Xor(c, Pack(b0, b1, b2, b3)), 32)
  {
    hide Shifts, Xor, High, Times256, Low, Before, Tail1, Tail2, Tail3;
    TailShift1(b1, b2, b3);
    TailShift2(b2, b3);
    TailShift3(b3);
    var d := Xor(c, Pack(b0, b1, b2, b3));
    var c1 := ByteStep(c, b0);
    var c2 := ByteStep(c1, b1);
    var c3 := ByteStep(c2, b2);
    StepBefore(c, b0, Tail1(b1, b2, b3));
    StepBefore(c1, b1, Times256(Tail2(b2, b3)));
    StepBefore(c2, b2, Times256(Times256(Tail3(b3))));
    ShiftsAdd(d, 8, 8);
    ShiftsAdd(d, 16, 8);
    ShiftsAdd(d, 24, 8);
    assert Shifts(d, 32) == ByteStep(c3, b3);
    ByteStepsOfFour(c, b0, b1, b2, b3);
  }

  lemma ByteStepsOfFour(c: bv32, b0: bv8, b1: bv8, b2: bv8, b3: bv8)
    ensures ByteSteps(c, [b0, b1, b2, b3]) == ByteStep(ByteStep(ByteStep(ByteStep(c, b0), b1), b2), b3)
  {
    hide ByteStep;
    assert [b0, b1, b2, b3][1..] == [b1, b2, b3] && [b1, b2, b3][1..] == [b2, b3];
    assert [b2, b3][1..] == [b3] && [b3][1..] == [];
    var c2 := ByteStep(ByteStep(c, b0), b1);
    assert ByteSteps(c, [b0, b1, b2, b3]) == ByteSteps(c2, [b2, b3]);
    assert ByteSteps(c2, [b2, b3]) == ByteSteps(ByteStep(ByteStep(c2, b2), b3), []);
  }

  lemma PackInjective(b0: bv8, b1: bv8, b2: bv8, b3: bv8, e0: bv8, e1: bv8, e2: bv8, e3: bv8)
    requires Pack(b0, b1, b2, b3) == Pack(e0, e1, e2, e3)
    ensures b0 == e0 && b1 == e1 && b2 == e2 && b3 == e3
  {
    hide Pack;
    Unpack(b0, b1, b2, b3);
    Unpack(e0, e1, e2, e3);
  }

  lemma Unpack(b0: bv8, b1: bv8, b2: bv8, b3: bv8)
    ensures var p := Pack(b0, b1, b2, b3);
            && p >> 24 == b0 as bv32 && (p >> 16) & 0xff == b1 as bv32
            && (p >> 8) & 0xff == b2 as bv32 && p & 0xff == b3 as bv32
  {
  }

  /** Different bursts of at most four bytes leave different registers. */
  lemma {:induction false} ShortBurst(c: bv32, s: seq<bv8>, t: seq<bv8>)
    requires |s| == |t| <= 4 && ByteSteps(c, s) == ByteSteps(c, t)
    ensures s == t
    decreases 4 - |s|
  {
    hide ByteSteps, Pack, Xor, Shifts;
    if |s| < 4 {
      ByteStepsAppend(c, s, [0]);
      ByteStepsAppend(c, t, [0]);
      ShortBurst(c, s + [0], t + [0]);
      assert s == (s + [0])[..|s|] && t == (t + [0])[..|t|];
    } else {
      assert s == [s[0], s[1], s[2], s[3]] && t == [t[0], t[1], t[2], t[3]];
      FourBytes(c, s[0], s[1], s[2], s[3]);
      FourBytes(c, t[0], t[1], t[2], t[3]);
      var p, q := Pack(s[0], s[1], s[2], s[3]), Pack(t[0], t[1], t[2], t[3]);
      ShiftsInjective(Xor(c, p), Xor(c, q), 32);
      XorLaws(c, p, 0);
      XorLaws(c, q, 0);
      XorLaws(p, c, 0);
      XorLaws(q, c, 0);
      PackInjective(s[0], s[1], s[2], s[3], t[0], t[1], t[2], t[3]);
    }
  }

  lemma ComplementInjective(a: bv32, b: bv32)
    requires Not(a) == Not(b)
    ensures a == b
  {
    assert a == !(!a) && b == !(!b);
  }

  /** Two messages that differ, but only within four consecutive bytes, never
      have the same CRC. */
  lemma BurstDetected(pre: seq<bv8>, s: seq<bv8>, t: seq<bv8>, post: seq<bv8>)
    requires |s| == |t| <= 4 && s != t
    ensures SerialCrc(pre + s + post) != SerialCrc(pre + t + post)
  {
    hide Not, ByteSteps, ClockBits, MessageBits;
    if SerialCrc(pre + s + post) == SerialCrc(pre + t + post) {
      var m, n := pre + s + post, pre + t + post;
      ComplementInjective(ClockBits(0xffff_ffff, MessageBits(m)), ClockBits(0xffff_ffff, MessageBits(n)));
      ByteStepsAreSerial(0xffff_ffff, m);
      ByteStepsAreSerial(0xffff_ffff, n);
      ByteStepsAppend(0xffff_ffff, pre + s, post);
      ByteStepsAppend(0xffff_ffff, pre + t, post);
      ByteStepsInjective(ByteSteps(0xffff_ffff, pre + s), ByteSteps(0xffff_ffff, pre + t), post);
      ByteStepsAppend(0xffff_ffff, pre, s);
      ByteStepsAppend(0xffff_ffff, pre, t);
      ShortBurst(ByteSteps(0xffff_ffff, pre), s, t);
    }
  }
}
