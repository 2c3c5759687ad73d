/** The table-less checksums of the firmware: the reflected CRC-32 kept over flash rows and
    journal entries (flash_buffer.c, persistent_seq.c, qspi_buffer.c), and the CRC-8 that
    SMBus calls PEC (pmbus_master.c). */
module Crc {
  import opened ShiftRegister
  import opened Words

  // ---------------------------------------------------------------- CRC-32

  const POLY32: u32 := 0xEDB8_8320
  const ONES32: u32 := 0xFFFF_FFFF

  function Xor32(a: u32, b: u32): u32 {
    Pow2Values();
    XorBelow(a, b, 32);
    BitXor(a, b)
  }

  function Shift32(crc: u32): u32 {
    if crc % 2 == 1 then Xor32(crc / 2, POLY32) else crc / 2
  }

  function Shifts32(crc: u32, n: nat): u32
    decreases n, crc
  {
    if n == 0 then crc else Shifts32(Shift32(crc), n - 1)
  }

  /** The register after absorbing whole bytes. */
  function Bytes32(crc: u32, data: seq<byte>): u32
    decreases |data|
  {
    if data == [] then crc else Bytes32(Shifts32(Xor32(crc, data[0]), 8), data[1..])
  }

  function Crc32(data: seq<byte>): u32 {
    Xor32(Bytes32(ONES32, data), ONES32)
  }

  /** The loop of flash_buffer.c and persistent_seq.c: test the low bit, then shift with or
      without the polynomial. */
  method Crc32ByBranch(data: seq<byte>) returns (r: u32)
    ensures r == Crc32(data)
  {
    var crc: u32 := ONES32;
    for i := 0 to |data|
      invariant Bytes32(crc, data[i..]) == Bytes32(ONES32, data)
    {
      crc := Xor32(crc, data[i]);
      ghost var start := crc;
      for bit := 0 to 8
        invariant Shifts32(crc, 8 - bit) == Shifts32(start, 8)
      {
        if crc % 2 == 1 {
          crc := Xor32(crc / 2, POLY32);
        } else {
          crc := crc / 2;
        }
      }
      assert data[i..][1..] == data[i + 1..];
    }
    return Xor32(crc, ONES32);
  }

  /** The loop of qspi_buffer.c: no branch, the polynomial is masked by the negated low bit. */
  method Crc32ByMask(data: seq<byte>) returns (r: u32)
    ensures r == Crc32(data)
  {
    var crc := RegisterByMask(data);
    Pow2Values();
    ComplementIsXor(crc, 32);
    return ONES32 - crc;
  }

  method RegisterByMask(data: seq<byte>) returns (crc: u32)
    ensures crc == Bytes32(ONES32, data)
  {
    crc := ONES32;
    for i := 0 to |data|
      invariant Bytes32(crc, data[i..]) == Bytes32(ONES32, data)
    {
      crc := Xor32(crc, data[i]);
      ghost var start := crc;
      for j := 0 to 8
        invariant Shifts32(crc, 8 - j) == Shifts32(start, 8)
      {
        crc := StepByMask(crc);
      }
      assert data[i..][1..] == data[i + 1..];
    }
  }

  method StepByMask(crc: u32) returns (next: u32)
    ensures next == Shift32(crc)
  {
    MaskIsBranch(crc);
    next := Xor32(crc / 2, BitAnd(Negate32(crc % 2), POLY32));
  }

  function Negate32(x: u32): u32 {
    if x == 0 then 0 else WORD - x
  }

  lemma AllOnes(p: u32)
    ensures BitAnd(ONES32, p) == p
  {
    Pow2Values();
    AndOnes(p, 32);
  }

  lemma MaskedWord(bit: nat, p: u32)
    requires bit < 2
    ensures BitAnd(Negate32(bit), p) == if bit == 1 then p else 0
  {
    AllOnes(p);
  }

  lemma MaskedShift(crc: u32, p: u32)
    ensures BitAnd(Negate32(crc % 2), p) <= p
    ensures Xor32(crc / 2, BitAnd(Negate32(crc % 2), p)) == if crc % 2 == 1 then Xor32(crc / 2, p) else crc / 2
  {
    MaskedWord(crc % 2, p);
    XorZero(crc / 2);
  }

  lemma MaskIsBranch(crc: u32)
    ensures BitAnd(Negate32(crc % 2), POLY32) <= POLY32
    ensures Shift32(crc) == Xor32(crc / 2, BitAnd(Negate32(crc % 2), POLY32))
  {
    MaskedShift(crc, POLY32);
  }

  // ---------------------------------------------------------------- CRC-32 bit by bit

  function WordBits(w: u32): (bits: seq<bool>)
    ensures |bits| == 32
  {
    Digits(w, 32)
  }

  /** A message in the order the reflected register absorbs it. */
  function MessageBits(data: seq<byte>): (bits: seq<bool>)
    ensures |bits| == 8 * |data|
  {
    if data == [] then [] else Digits(data[0], 8) + MessageBits(data[1..])
  }

  /** One shift of the machine word is one step of a register with this polynomial. */
  ghost predicate Polynomial32(poly: seq<bool>) {
    && |poly| == 32 && poly[31]
    && forall c: u32 :: WordBits(Shift32(c)) == Step(poly, WordBits(c))
  }

  lemma ShiftIsStep(c: u32, p: u32)
    ensures WordBits(if c % 2 == 1 then Xor32(c / 2, p) else c / 2) == Step(WordBits(p), WordBits(c))
  {
    Pow2Values();
    HalfDigits(c, 32);
    XorDigits(c / 2, p, 32);
  }

  /** There is one; which it is does not matter for what follows. */
  lemma HasPolynomial32() returns (poly: seq<bool>)
    ensures Polynomial32(poly)
  {
    Pow2Values();
    TopDigit(POLY32, 31);
    poly := WordBits(POLY32);
    forall c: u32 ensures WordBits(Shift32(c)) == Step(poly, WordBits(c)) {
      ShiftIsStep(c, POLY32);
    }
  }

  lemma {:induction false} ShiftsAreSteps(poly: seq<bool>, c: u32, n: nat)
    requires Polynomial32(poly)
    ensures WordBits(Shifts32(c, n)) == Shifts(poly, WordBits(c), n)
    decreases n
  {
    if n > 0 {
      ShiftsAreSteps(poly, Shift32(c), n - 1);
    }
  }

  /** Xoring a byte in and shifting eight times absorbs its bits one by one. */
  lemma ByteIsBits(poly: seq<bool>, c: u32, b: byte)
    requires Polynomial32(poly)
    ensures WordBits(Shifts32(Xor32(c, b), 8)) == Bits(poly, WordBits(c), Digits(b, 8))
  {
    Pow2Values();
    PadDigits(b, 8, 32);
    XorDigits(c, b, 32);
    StringIsBits(poly, WordBits(c), Digits(b, 8));
    ShiftsAreSteps(poly, Xor32(c, b), 8);
  }

  /** The byte-wise register of the code absorbs the message bit by bit. */
  lemma {:induction false} BytesAreBits(poly: seq<bool>, c: u32, data: seq<byte>)
    requires Polynomial32(poly)
    ensures WordBits(Bytes32(c, data)) == Bits(poly, WordBits(c), MessageBits(data))
    decreases |data|
  {
    if data != [] {
      ByteIsBits(poly, c, data[0]);
      BytesAreBits(poly, Shifts32(Xor32(c, data[0]), 8), data[1..]);
      BitsAppend(poly, WordBits(c), Digits(data[0], 8), MessageBits(data[1..]));
    }
  }

  lemma RegistersDiffer(c: u32, m: seq<byte>, n: seq<byte>, before: seq<bool>, x: seq<bool>, y: seq<bool>,
                        after: seq<bool>)
    requires MessageBits(m) == before + x + after && MessageBits(n) == before + y + after
    requires |x| == |y| <= 32 && x != y
    ensures Bytes32(c, m) != Bytes32(c, n)
  {
    var poly := HasPolynomial32();
    BytesAreBits(poly, c, m);
    BytesAreBits(poly, c, n);
    BurstDetected(poly, WordBits(c), before, x, y, after);
  }

  /** CRC-32 DETECTS BURSTS.  Two messages of any length whose bits differ only inside a window
      of at most 32 consecutive bits have different checksums. */
  lemma Crc32DetectsBurst(m: seq<byte>, n: seq<byte>, before: seq<bool>, x: seq<bool>, y: seq<bool>, after: seq<bool>)
    requires MessageBits(m) == before + x + after && MessageBits(n) == before + y + after
    requires |x| == |y| <= 32 && x != y
    ensures Crc32(m) != Crc32(n)
  {
    RegistersDiffer(ONES32, m, n, before, x, y, after);
    Complement(Bytes32(ONES32, m));
    Complement(Bytes32(ONES32, n));
  }

  lemma Complement(r: u32)
    ensures Xor32(r, ONES32) == ONES32 - r
  {
    Pow2Values();
    ComplementIsXor(r, 32);
  }

  // ---------------------------------------------------------------- linearity

  /** The bytewise difference of two messages. */
  function XorBytes(m: seq<byte>, n: seq<byte>): (d: seq<byte>)
    requires |m| == |n|
    ensures |d| == |m|
  {
    seq(|m|, i requires 0 <= i < |m| => Xor8(m[i], n[i]))
  }

  lemma XorBytesFirst(m: seq<byte>, n: seq<byte>)
    requires |m| == |n| > 0
    ensures XorBytes(m, n)[0] == Xor8(m[0], n[0]) && XorBytes(m, n)[1..] == XorBytes(m[1..], n[1..])
  {
  }

  lemma XorAppend(a: seq<bool>, b: seq<bool>, a': seq<bool>, b': seq<bool>)
    requires |a| == |b| && |a'| == |b'|
    ensures Xor(a + a', b + b') == Xor(a, b) + Xor(a', b')
  {
  }

  lemma {:induction false} MessageXor(m: seq<byte>, n: seq<byte>)
    requires |m| == |n|
    ensures MessageBits(XorBytes(m, n)) == Xor(MessageBits(m), MessageBits(n))
    decreases |m|
  {
    if m != [] {
      XorBytesFirst(m, n);
      XorDigits(m[0], n[0], 8);
      MessageXor(m[1..], n[1..]);
      XorAppend(Digits(m[0], 8), Digits(n[0], 8), MessageBits(m[1..]), MessageBits(n[1..]));
    }
  }

  lemma SameWord(a: u32, b: u32)
    requires WordBits(a) == WordBits(b)
    ensures a == b
  {
    Pow2Values();
    DigitsInjective(a, b, 32);
  }

  lemma WordXor(a: u32, b: u32)
    ensures WordBits(Xor32(a, b)) == Xor(WordBits(a), WordBits(b))
  {
    XorDigits(a, b, 32);
  }

  lemma Cancels(a: seq<bool>, b: seq<bool>, c: seq<bool>)
    requires |a| == |b| == |c|
    ensures Xor(Xor(a, c), Xor(b, c)) == Xor(a, b) && Xor(c, c) == Zeros(|c|)
  {
  }

  lemma RegistersLinear(c: u32, zero: u32, m: seq<byte>, n: seq<byte>)
    requires |m| == |n| && WordBits(zero) == Zeros(32)
    ensures Xor32(Bytes32(c, m), Bytes32(c, n)) == Bytes32(zero, XorBytes(m, n))
  {
    var poly := HasPolynomial32();
    var bits := WordBits(c);
    BytesAreBits(poly, c, m);
    BytesAreBits(poly, c, n);
    BytesAreBits(poly, zero, XorBytes(m, n));
    MessageXor(m, n);
    Cancels(bits, bits, bits);
    Linear(poly, bits, bits, MessageBits(m), MessageBits(n));
    WordXor(Bytes32(c, m), Bytes32(c, n));
    SameWord(Xor32(Bytes32(c, m), Bytes32(c, n)), Bytes32(zero, XorBytes(m, n)));
  }

  lemma ComplementsCancel(a: u32, b: u32, c: u32)
    ensures Xor32(Xor32(a, c), Xor32(b, c)) == Xor32(a, b)
  {
    WordXor(a, c);
    WordXor(b, c);
    WordXor(a, b);
    WordXor(Xor32(a, c), Xor32(b, c));
    Cancels(WordBits(a), WordBits(b), WordBits(c));
    SameWord(Xor32(Xor32(a, c), Xor32(b, c)), Xor32(a, b));
  }

  /** CRC-32 IS LINEAR.  The difference of two checksums is the register that the difference of the messages
      leaves from zero; whether messages of one length collide depends on their difference alone. */
  lemma Crc32Linear(m: seq<byte>, n: seq<byte>)
    requires |m| == |n|
    ensures Xor32(Crc32(m), Crc32(n)) == Bytes32(0, XorBytes(m, n))
    ensures Crc32(m) == Crc32(n) <==> Bytes32(0, XorBytes(m, n)) == 0
  {
    ZeroDigits(32);
    RegistersLinear(ONES32, 0, m, n);
    ComplementsCancel(Bytes32(ONES32, m), Bytes32(ONES32, n), ONES32);
    XorIsZero(Crc32(m), Crc32(n));
  }

  // ---------------------------------------------------------------- a message and its stored CRC-32

  lemma {:induction false} Bytes32Append(c: u32, x: seq<byte>, y: seq<byte>)
    ensures Bytes32(c, x + y) == Bytes32(Bytes32(c, x), y)
    decreases |x|
  {
    if x == [] {
      assert x + y == y;
    } else {
      assert (x + y)[1..] == x[1..] + y;
      Bytes32Append(Shifts32(Xor32(c, x[0]), 8), x[1..], y);
    }
  }

  lemma {:induction false} StoredBits(x: nat, n: nat)
    ensures MessageBits(LittleEndian(x, n)) == Digits(x, 8 * n)
    decreases n
  {
    if n > 0 {
      ByteDigits(x, 8 * (n - 1));
      StoredBits(x / 0x100, n - 1);
    }
  }

  /** Absorbing a word shifts the register 32 times after xoring it in. */
  lemma WordAbsorbed(poly: seq<bool>, c: u32, v: u32)
    requires Polynomial32(poly)
    ensures WordBits(Bytes32(c, Le32(v))) == Shifts(poly, Xor(WordBits(c), WordBits(v)), 32)
  {
    StoredBits(v, 4);
    BytesAreBits(poly, c, Le32(v));
    assert Pad(WordBits(v), 32) == WordBits(v);
    StringIsBits(poly, WordBits(c), WordBits(v));
  }

  lemma Complemented(r: seq<bool>, v: seq<bool>, ones: seq<bool>)
    requires |r| == |v| == |ones|
    ensures Xor(r, v) == ones <==> v == Xor(r, ones)
  {
    if Xor(r, v) == ones {
      assert forall i :: 0 <= i < |v| ==> ones[i] == (r[i] != v[i]);
    }
  }

  /** Registers that have absorbed a word each are equal exactly when they and the words differ alike. */
  lemma SameAbsorbed(r: u32, v: u32, r': u32, v': u32)
    ensures Bytes32(r, Le32(v)) == Bytes32(r', Le32(v')) <==> Xor32(r, v) == Xor32(r', v')
  {
    var poly := HasPolynomial32();
    WordAbsorbed(poly, r, v);
    WordAbsorbed(poly, r', v');
    WordXor(r, v);
    WordXor(r', v');
    SameShifts(poly, Bytes32(r, Le32(v)), Xor32(r, v), Bytes32(r', Le32(v')), Xor32(r', v'), 32);
  }

  lemma SameShifts(poly: seq<bool>, a: u32, x: u32, b: u32, y: u32, n: nat)
    requires |poly| == 32 && poly[31]
    requires WordBits(a) == Shifts(poly, WordBits(x), n) && WordBits(b) == Shifts(poly, WordBits(y), n)
    ensures a == b <==> x == y
  {
    if a == b {
      ShiftsUndoable(poly, WordBits(x), WordBits(y), n);
      SameWord(x, y);
    }
    if x == y {
      SameWord(a, b);
    }
  }

  lemma XorUndone(r: u32, v: u32, c: u32)
    ensures Xor32(r, v) == c <==> v == Xor32(r, c)
  {
    WordXor(r, v);
    WordXor(r, c);
    Complemented(WordBits(r), WordBits(v), WordBits(c));
    if v == Xor32(r, c) {
      SameWord(Xor32(r, v), c);
    }
    if Xor32(r, v) == c {
      SameWord(v, Xor32(r, c));
    }
  }

  /** RESIDUE.  Messages that are followed by their CRC-32 all leave the same register, and one followed by
      anything else does not. */
  lemma Crc32Residue(body: seq<byte>, v: u32, other: seq<byte>)
    ensures Bytes32(ONES32, body + Le32(v)) == Bytes32(ONES32, other + Le32(Crc32(other))) <==> v == Crc32(body)
  {
    var r, r' := Bytes32(ONES32, body), Bytes32(ONES32, other);
    Bytes32Append(ONES32, body, Le32(v));
    Bytes32Append(ONES32, other, Le32(Crc32(other)));
    SameAbsorbed(r, v, r', Crc32(other));
    XorUndone(r', Crc32(other), ONES32);
    XorUndone(r, v, ONES32);
  }

  // ---------------------------------------------------------------- CRC-8 (PEC)

  const POLY8: byte := 0x07

  function Xor8(a: byte, b: byte): byte {
    Pow2Values();
    XorBelow(a, b, 8);
    BitXor(a, b)
  }

  function Shift8(crc: byte): byte {
    if crc >= 0x80 then Xor8(2 * crc % 0x100, POLY8) else 2 * crc % 0x100
  }

  function Shifts8(crc: byte, n: nat): byte
    decreases n, crc
  {
    if n == 0 then crc else Shifts8(Shift8(crc), n - 1)
  }

  function Bytes8(crc: byte, data: seq<byte>): byte
    decreases |data|
  {
    if data == [] then crc else Bytes8(Shifts8(Xor8(crc, data[0]), 8), data[1..])
  }

  function Crc8(data: seq<byte>): byte {
    Bytes8(0, data)
  }

  method Crc8ByLoop(data: seq<byte>) returns (crc: byte)
    ensures crc == Crc8(data)
  {
    crc := 0;
    for i := 0 to |data|
      invariant Bytes8(crc, data[i..]) == Crc8(data)
    {
      crc := Xor8(crc, data[i]);
      ghost var start := crc;
      for bit := 0 to 8
        invariant Shifts8(crc, 8 - bit) == Shifts8(start, 8)
      {
        if crc >= 0x80 {
          crc := Xor8(2 * crc % 0x100, POLY8);
        } else {
          crc := 2 * crc % 0x100;
        }
      }
      assert data[i..][1..] == data[i + 1..];
    }
  }

  function Reverse(s: seq<bool>): (r: seq<bool>)
    ensures |r| == |s| && forall i :: 0 <= i < |s| ==> r[i] == s[|s| - 1 - i]
  {
    seq(|s|, i requires 0 <= i < |s| => s[|s| - 1 - i])
  }

  /** A byte most significant digit first: the order this register shifts them out. */
  function ByteBits(w: byte): (bits: seq<bool>)
    ensures |bits| == 8
  {
    Reverse(Digits(w, 8))
  }

  function Message8Bits(data: seq<byte>): (bits: seq<bool>)
    ensures |bits| == 8 * |data|
  {
    if data == [] then [] else ByteBits(data[0]) + Message8Bits(data[1..])
  }

  lemma DoubledDigits(c: nat, n: nat)
    requires c < Pow2(n + 1)
    ensures Digits(2 * (if c >= Pow2(n) then c - Pow2(n) else c), n + 1) == [false] + Digits(c, n)
    ensures Digits(c, n + 1)[n] == (c >= Pow2(n)) && Digits(c, n + 1)[..n] == Digits(c, n)
  {
    TopDigit(c, n);
    SplitTop(c, n);
  }

  lemma DoubledByte(c: byte, c': byte)
    requires c' == if c >= 0x80 then 2 * (c - 0x80) else 2 * c
    ensures Digits(c', 8) == [false] + Digits(c, 8)[..7]
    ensures Digits(c, 8)[7] == (c >= 0x80)
  {
    assert Pow2(7) == 0x80 && Pow2(8) == 0x100;
    DoubledDigits(c, 7);
  }

  lemma ReverseMoved(d: seq<bool>)
    requires |d| > 0
    ensures Reverse([false] + d[..|d| - 1]) == Reverse(d)[1..] + [false]
  {
  }

  lemma DoubledBits(c: byte)
    ensures ByteBits(2 * c % 0x100) == ByteBits(c)[1..] + [false]
    ensures ByteBits(c)[0] == (c >= 0x80)
  {
    DoubledByte(c, 2 * c % 0x100);
    ReverseMoved(Digits(c, 8));
  }

  lemma {:induction false} SplitTop(w: nat, n: nat)
    ensures Digits(w, n) == Digits(w, n + 1)[..n]
    decreases n
  {
    if n > 0 {
      SplitTop(w / 2, n - 1);
    }
  }

  lemma XorByteBits(a: byte, b: byte)
    ensures ByteBits(Xor8(a, b)) == Xor(ByteBits(a), ByteBits(b))
  {
    XorDigits(a, b, 8);
    assert Reverse(Xor(Digits(a, 8), Digits(b, 8))) == Xor(ByteBits(a), ByteBits(b));
  }

  ghost predicate Polynomial8(poly: seq<bool>) {
    && |poly| == 8 && poly[7]
    && forall c: byte :: ByteBits(Shift8(c)) == Step(poly, ByteBits(c))
  }

  lemma Shift8IsStep(c: byte, p: byte)
    ensures ByteBits(if c >= 0x80 then Xor8(2 * c % 0x100, p) else 2 * c % 0x100) == Step(ByteBits(p), ByteBits(c))
  {
    DoubledBits(c);
    XorByteBits(2 * c % 0x100, p);
  }

  /** An odd word's digits are a one and those of its half. */
  lemma OneMore(w: nat, k: nat, n: nat, rest: seq<bool>)
    requires w == 2 * k + 1 && n > 0 && Digits(k, n - 1) == rest
    ensures Digits(w, n) == [true] + rest
  {
    assert w / 2 == k;
  }

  lemma Thrice(d: seq<bool>)
    ensures [true] + ([true] + ([true] + d)) == [true, true, true] + d
  {
  }

  lemma Poly8Shape()
    ensures ByteBits(POLY8) == [false, false, false, false, false, true, true, true]
  {
    var d := Zeros(5);
    ZeroDigits(5);
    OneMore(1, 0, 6, d);
    OneMore(3, 1, 7, [true] + d);
    OneMore(7, 3, 8, [true] + ([true] + d));
    Thrice(d);
  }

  lemma OddThree()
    ensures Odd([false, false, false, false, false, true, true, true])
  {
    var p := [false, false, false, false, false, true, true, true];
    OddAppend([false, false, false, false, false], [true, true, true]);
    assert p == [false, false, false, false, false] + [true, true, true];
  }

  lemma HasPolynomial8() returns (poly: seq<bool>)
    ensures Polynomial8(poly) && Odd(poly)
  {
    Poly8Shape();
    OddThree();
    poly := ByteBits(POLY8);
    forall c: byte ensures ByteBits(Shift8(c)) == Step(poly, ByteBits(c)) {
      Shift8IsStep(c, POLY8);
    }
  }

  lemma {:induction false} Shifts8AreSteps(poly: seq<bool>, c: byte, n: nat)
    requires Polynomial8(poly)
    ensures ByteBits(Shifts8(c, n)) == Shifts(poly, ByteBits(c), n)
    decreases n
  {
    if n > 0 {
      Shifts8AreSteps(poly, Shift8(c), n - 1);
    }
  }

  lemma Byte8IsBits(poly: seq<bool>, c: byte, b: byte)
    requires Polynomial8(poly)
    ensures ByteBits(Shifts8(Xor8(c, b), 8)) == Bits(poly, ByteBits(c), ByteBits(b))
  {
    XorByteBits(c, b);
    assert Pad(ByteBits(b), 8) == ByteBits(b);
    StringIsBits(poly, ByteBits(c), ByteBits(b));
    Shifts8AreSteps(poly, Xor8(c, b), 8);
  }

  lemma {:induction false} Bytes8AreBits(poly: seq<bool>, c: byte, data: seq<byte>)
    requires Polynomial8(poly)
    ensures ByteBits(Bytes8(c, data)) == Bits(poly, ByteBits(c), Message8Bits(data))
    decreases |data|
  {
    if data != [] {
      Byte8IsBits(poly, c, data[0]);
      Bytes8AreBits(poly, Shifts8(Xor8(c, data[0]), 8), data[1..]);
      BitsAppend(poly, ByteBits(c), ByteBits(data[0]), Message8Bits(data[1..]));
    }
  }

  /** CRC-8 DETECTS BURSTS of at most 8 consecutive bits, and so any change to a single byte. */
  lemma Crc8DetectsBurst(m: seq<byte>, n: seq<byte>, before: seq<bool>, x: seq<bool>, y: seq<bool>, after: seq<bool>)
    requires Message8Bits(m) == before + x + after && Message8Bits(n) == before + y + after
    requires |x| == |y| <= 8 && x != y
    ensures Crc8(m) != Crc8(n)
  {
    var poly := HasPolynomial8();
    Bytes8AreBits(poly, 0, m);
    Bytes8AreBits(poly, 0, n);
    BurstDetected(poly, ByteBits(0), before, x, y, after);
  }

  /** CRC-8 DETECTS ODD ERRORS: when an odd number of message bits is flipped, anywhere, the
      checksum changes. */
  lemma Crc8DetectsOddErrors(m: seq<byte>, n: seq<byte>)
    requires Odd(Message8Bits(m)) != Odd(Message8Bits(n))
    ensures Crc8(m) != Crc8(n)
  {
    var poly := HasPolynomial8();
    Bytes8AreBits(poly, 0, m);
    Bytes8AreBits(poly, 0, n);
    ParityTracked(poly, ByteBits(0), Message8Bits(m));
    ParityTracked(poly, ByteBits(0), Message8Bits(n));
  }

  lemma ReverseXor(a: seq<bool>, b: seq<bool>)
    requires |a| == |b|
    ensures Reverse(Reverse(a)) == a && Xor(Reverse(a), Reverse(b)) == Reverse(Xor(a, b))
  {
  }

  lemma {:induction false} Message8Xor(m: seq<byte>, n: seq<byte>)
    requires |m| == |n|
    ensures Message8Bits(XorBytes(m, n)) == Xor(Message8Bits(m), Message8Bits(n))
    decreases |m|
  {
    if m != [] {
      XorBytesFirst(m, n);
      XorByteBits(m[0], n[0]);
      Message8Xor(m[1..], n[1..]);
      XorAppend(ByteBits(m[0]), ByteBits(n[0]), Message8Bits(m[1..]), Message8Bits(n[1..]));
    }
  }

  lemma SameByte(a: byte, b: byte)
    requires ByteBits(a) == ByteBits(b)
    ensures a == b
  {
    Pow2Values();
    ReverseXor(Digits(a, 8), Digits(b, 8));
    ReverseXor(Digits(b, 8), Digits(a, 8));
    DigitsInjective(a, b, 8);
  }

  lemma Registers8Linear(zero: byte, m: seq<byte>, n: seq<byte>)
    requires |m| == |n| && ByteBits(zero) == Zeros(8)
    ensures Bytes8(zero, XorBytes(m, n)) == Xor8(Bytes8(zero, m), Bytes8(zero, n))
  {
    var poly := HasPolynomial8();
    var bits := ByteBits(zero);
    Bytes8AreBits(poly, zero, m);
    Bytes8AreBits(poly, zero, n);
    Bytes8AreBits(poly, zero, XorBytes(m, n));
    Message8Xor(m, n);
    Cancels(bits, bits, bits);
    Linear(poly, bits, bits, Message8Bits(m), Message8Bits(n));
    XorByteBits(Bytes8(zero, m), Bytes8(zero, n));
    SameByte(Bytes8(zero, XorBytes(m, n)), Xor8(Bytes8(zero, m), Bytes8(zero, n)));
  }

  /** CRC-8 IS LINEAR.  Whether messages of one length collide depends on their difference alone. */
  lemma Crc8Linear(m: seq<byte>, n: seq<byte>)
    requires |m| == |n|
    ensures Crc8(XorBytes(m, n)) == Xor8(Crc8(m), Crc8(n))
    ensures Crc8(m) == Crc8(n) <==> Crc8(XorBytes(m, n)) == 0
  {
    ZeroDigits(8);
    assert Reverse(Zeros(8)) == Zeros(8);
    Registers8Linear(0, m, n);
    XorIsZero(Crc8(m), Crc8(n));
  }

  lemma {:induction false} Bytes8Append(c: byte, x: seq<byte>, y: seq<byte>)
    ensures Bytes8(c, x + y) == Bytes8(Bytes8(c, x), y)
    decreases |x|
  {
    if x == [] {
      assert x + y == y;
    } else {
      assert (x + y)[1..] == x[1..] + y;
      Bytes8Append(Shifts8(Xor8(c, x[0]), 8), x[1..], y);
    }
  }

  lemma Shift8Zero(c: byte)
    ensures Shift8(c) == 0 <==> c == 0
  {
    XorIsZero(2 * c % 0x100, POLY8);
    assert c >= 0x80 ==> 2 * c % 0x100 == 2 * (c - 0x80);
  }

  lemma {:induction false} Shifts8Zero(c: byte, n: nat)
    ensures Shifts8(c, n) == 0 <==> c == 0
    decreases n
  {
    if n > 0 {
      Shift8Zero(c);
      Shifts8Zero(Shift8(c), n - 1);
    }
  }

  /** PEC RESIDUE.  A frame followed by a byte checks to zero exactly when that byte is the
      frame's PEC, so comparing the received PEC and checking the whole frame to zero agree. */
  lemma PecResidue(frame: seq<byte>, pec: byte)
    ensures Crc8(frame + [pec]) == 0 <==> pec == Crc8(frame)
  {
    Bytes8Append(0, frame, [pec]);
    var c := Crc8(frame);
    assert Bytes8(c, [pec]) == Shifts8(Xor8(c, pec), 8);
    Shifts8Zero(Xor8(c, pec), 8);
    XorIsZero(c, pec);
  }
}
