/** Machine words as the numbers they hold, with C's bitwise operators defined on their binary
    digits, and the little-endian layout of words in memory. */
module Words {
  import opened ShiftRegister

  const WORD: nat := 0x1_0000_0000

  type byte = x: nat | x < 0x100
  type u16 = x: nat | x < 0x1_0000
  type u32 = x: nat | x < 0x1_0000_0000

  /** The storage modules are proved for whichever checksum guards their rows and records. */
  type Checksum = seq<byte> -> u32

  /** C's ++ on a 32-bit counter. */
  function Inc32(x: u32): u32 {
    if x == 0xFFFF_FFFF then 0 else x + 1
  }

  type i32 = x: int | -0x8000_0000 <= x < 0x8000_0000

  /** C's (int32_t)(x - y) on unsigned words. */
  function Diff(x: u32, y: u32): i32 {
    var d := if x >= y then x - y else x - y + WORD;
    if d >= 0x8000_0000 then d - WORD else d
  }

  // ---------------------------------------------------------------- bitwise operators

  function BitXor(a: nat, b: nat): nat
    decreases a + b
  {
    if a == 0 && b == 0 then 0
    else (if a % 2 != b % 2 then 1 else 0) + 2 * BitXor(a / 2, b / 2)
  }

  function BitAnd(a: nat, b: nat): nat
    decreases a
  {
    if a == 0 then 0
    else (if a % 2 == 1 && b % 2 == 1 then 1 else 0) + 2 * BitAnd(a / 2, b / 2)
  }

  function Pow2(n: nat): (p: nat)
    ensures p > 0
  {
    if n == 0 then 1 else 2 * Pow2(n - 1)
  }

  lemma Pow2Values()
    ensures Pow2(8) == 0x100 && Pow2(16) == 0x1_0000 && Pow2(32) == 0x1_0000_0000
  {
    assert Pow2(8) == 0x100;
    Pow2Add(8, 8);
    Pow2Add(16, 16);
  }

  lemma {:induction false} Pow2Add(m: nat, n: nat)
    ensures Pow2(m + n) == Pow2(m) * Pow2(n)
    decreases m
  {
    if m > 0 {
      Pow2Add(m - 1, n);
    }
  }

  /** The low `n` binary digits of a word, least significant first. */
  function Digits(w: nat, n: nat): (bits: seq<bool>)
    ensures |bits| == n
    decreases n, w
  {
    if n == 0 then [] else [w % 2 == 1] + Digits(w / 2, n - 1)
  }

  lemma {:induction false} XorBelow(a: nat, b: nat, n: nat)
    requires a < Pow2(n) && b < Pow2(n)
    ensures BitXor(a, b) < Pow2(n)
    decreases n
  {
    if n > 0 && !(a == 0 && b == 0) {
      XorBelow(a / 2, b / 2, n - 1);
    }
  }

  lemma {:induction false} AndBelow(a: nat, b: nat)
    ensures BitAnd(a, b) <= a && BitAnd(a, b) <= b
    decreases a
  {
    if a > 0 {
      AndBelow(a / 2, b / 2);
    }
  }

  /** Xor is digit-wise. */
  lemma {:induction false} XorDigits(a: nat, b: nat, n: nat)
    ensures Digits(BitXor(a, b), n) == Xor(Digits(a, n), Digits(b, n))
    decreases n
  {
    if n > 0 {
      XorDigits(a / 2, b / 2, n - 1);
      assert BitXor(a, b) / 2 == BitXor(a / 2, b / 2);
    }
  }

  /** Masking with n ones keeps a word of n digits. */
  lemma {:induction false} AndOnes(a: nat, n: nat)
    requires a < Pow2(n)
    ensures BitAnd(Pow2(n) - 1, a) == a
    decreases n
  {
    if n > 0 {
      AndOnes(a / 2, n - 1);
      assert (Pow2(n) - 1) / 2 == Pow2(n - 1) - 1;
    }
  }

  lemma {:induction false} AndSwap(a: nat, b: nat)
    ensures BitAnd(a, b) == BitAnd(b, a)
    decreases a + b
  {
    AndBelow(a, b);
    AndBelow(b, a);
    if a > 0 && b > 0 {
      AndSwap(a / 2, b / 2);
    }
  }

  lemma {:induction false} AndSelf(a: nat)
    ensures BitAnd(a, a) == a
    decreases a
  {
    if a > 0 {
      AndSelf(a / 2);
    }
  }

  /** Every bit set in `b` is set in `a`. */
  predicate Within(b: seq<bool>, a: seq<bool>)
    requires |a| == |b|
  {
    forall i :: 0 <= i < |b| && b[i] ==> a[i]
  }

  lemma WithinFirst(b: seq<bool>, a: seq<bool>)
    requires |a| == |b| > 0
    ensures Within(b, a) <==> (b[0] ==> a[0]) && Within(b[1..], a[1..])
  {
    if Within(b[1..], a[1..]) {
      forall i | 0 < i < |b| && b[i] ensures a[i] {
        assert b[1..][i - 1] && a[1..][i - 1] == a[i];
      }
    }
  }

  /** Clearing bits of `a` can leave `b` exactly when every digit set in `b` is set in `a`. */
  lemma {:induction false} AndUnder(a: nat, b: nat, n: nat)
    requires b < Pow2(n)
    ensures BitAnd(a, b) == b <==> Within(Digits(b, n), Digits(a, n))
    decreases n
  {
    if n == 0 {
      AndBelow(a, b);
    } else {
      AndUnder(a / 2, b / 2, n - 1);
      WithinFirst(Digits(b, n), Digits(a, n));
      assert Digits(b, n)[1..] == Digits(b / 2, n - 1) && Digits(a, n)[1..] == Digits(a / 2, n - 1);
    }
  }

  lemma {:induction false} ZeroDigits(n: nat)
    ensures Digits(0, n) == Zeros(n)
    decreases n
  {
    if n > 0 {
      ZeroDigits(n - 1);
    }
  }

  /** A word below 2^k is its k digits with nothing behind them. */
  lemma {:induction false} PadDigits(w: nat, k: nat, n: nat)
    requires w < Pow2(k) && k <= n
    ensures Digits(w, n) == Pad(Digits(w, k), n)
    decreases k
  {
    if k == 0 {
      ZeroDigits(n);
    } else {
      PadDigits(w / 2, k - 1, n - 1);
    }
  }

  /** Halving moves the digit string down by one. */
  lemma {:induction false} HalfDigits(w: nat, n: nat)
    requires n > 0 && w < Pow2(n)
    ensures Digits(w / 2, n) == Digits(w, n)[1..] + [false]
  {
    PadDigits(w / 2, n - 1, n);
    assert Digits(w, n)[1..] == Digits(w / 2, n - 1);
  }

  /** Words of n digits are determined by them. */
  lemma {:induction false} DigitsInjective(a: nat, b: nat, n: nat)
    requires a < Pow2(n) && b < Pow2(n) && Digits(a, n) == Digits(b, n)
    ensures a == b
    decreases n
  {
    if n > 0 {
      assert Digits(a, n)[0] == Digits(b, n)[0];
      assert Digits(a, n)[1..] == Digits(b, n)[1..];
      DigitsInjective(a / 2, b / 2, n - 1);
    }
  }

  /** The top digit of a word of n + 1 digits says whether it reaches 2^n; the others ignore it. */
  lemma {:induction false} TopDigit(w: nat, n: nat)
    requires w < Pow2(n + 1)
    ensures Digits(w, n + 1)[n] == (w >= Pow2(n))
    ensures w >= Pow2(n) ==> Digits(w - Pow2(n), n) == Digits(w, n)
    decreases n
  {
    if n > 0 {
      TopDigit(w / 2, n - 1);
      assert Digits(w, n + 1)[n] == Digits(w / 2, n)[n - 1];
      if w >= Pow2(n) {
        assert (w - Pow2(n)) / 2 == w / 2 - Pow2(n - 1);
      }
    }
  }

  /** The digits of a word are those of its low part followed by those of the rest. */
  lemma {:induction false} SplitDigits(lo: nat, hi: nat, m: nat, k: nat)
    requires lo < Pow2(m)
    ensures Digits(lo + Pow2(m) * hi, m + k) == Digits(lo, m) + Digits(hi, k)
    decreases m
  {
    if m > 0 {
      var p := Pow2(m - 1);
      TwiceProduct(p, hi);
      HalfSum(lo, p * hi);
      SplitDigits(lo / 2, hi, m - 1, k);
    }
  }

  lemma TwiceProduct(p: nat, q: nat)
    ensures 2 * p * q == 2 * (p * q)
  {
  }

  /** For a byte and what is above it. */
  lemma ByteDigits(x: nat, k: nat)
    ensures Digits(x, 8 + k) == Digits(x % 0x100, 8) + Digits(x / 0x100, k)
  {
    var lo, hi := x % 0x100, x / 0x100;
    assert Pow2(8) == 0x100;
    SplitDigits(lo, hi, 8, k);
    assert x == lo + 0x100 * hi;
  }

  lemma AboveByte(x: nat, k: nat)
    requires x < Pow2(8 + k)
    ensures x / 0x100 < Pow2(k)
  {
    assert Pow2(8) == 0x100;
    Pow2Add(8, k);
  }

  lemma HalfSum(x: nat, y: nat)
    ensures (x + 2 * y) / 2 == x / 2 + y && (x + 2 * y) % 2 == x % 2
  {
  }

  lemma {:induction false} XorZero(a: nat)
    ensures BitXor(a, 0) == a
    decreases a
  {
    if a > 0 {
      XorZero(a / 2);
    }
  }

  lemma {:induction false} XorIsZero(a: nat, b: nat)
    ensures BitXor(a, b) == 0 <==> a == b
    decreases a + b
  {
    if a > 0 || b > 0 {
      XorIsZero(a / 2, b / 2);
    }
  }

  /** C's complement of an n-digit word flips every digit. */
  lemma {:induction false} ComplementIsXor(a: nat, n: nat)
    requires a < Pow2(n)
    ensures BitXor(a, Pow2(n) - 1) == Pow2(n) - 1 - a
    decreases n
  {
    if n > 0 {
      var p := Pow2(n - 1);
      ComplementIsXor(a / 2, n - 1);
      XorHalves(a, 2 * p - 1, p - 1);
    }
  }

  /** An odd second operand flips the last digit of the first. */
  lemma XorHalves(a: nat, b: nat, half: nat)
    requires b == 2 * half + 1
    ensures BitXor(a, b) == 1 - a % 2 + 2 * BitXor(a / 2, half)
  {
    assert b / 2 == half && b % 2 == 1;
  }

  // ---------------------------------------------------------------- words in memory, little-endian

  function LittleEndian(x: nat, n: nat): (b: seq<byte>)
    ensures |b| == n
    decreases n, x
  {
    if n == 0 then [] else [x % 0x100] + LittleEndian(x / 0x100, n - 1)
  }

  function NumberAt(mem: seq<byte>, a: nat, n: nat): nat
    requires a + n <= |mem|
    decreases n, a
  {
    if n == 0 then 0 else (mem[a] as nat) + 0x100 * NumberAt(mem, a + 1, n - 1)
  }

  function Span(n: nat): (p: nat)
    ensures p > 0
  {
    if n == 0 then 1 else 0x100 * Span(n - 1)
  }

  lemma {:induction false} NumberBelow(mem: seq<byte>, a: nat, n: nat)
    requires a + n <= |mem|
    ensures NumberAt(mem, a, n) < Span(n)
    decreases n
  {
    if n > 0 {
      NumberBelow(mem, a + 1, n - 1);
    }
  }

  lemma SpanValues()
    ensures Span(2) == 0x1_0000 && Span(4) == 0x1_0000_0000
  {
    assert Span(2) == 0x1_0000;
  }

  /** A number below 256^n can be read back from where its n bytes were stored. */
  lemma {:induction false} NumberRoundTrip(mem: seq<byte>, a: nat, n: nat, x: nat)
    requires a + n <= |mem| && x < Span(n) && mem[a..a + n] == LittleEndian(x, n)
    ensures NumberAt(mem, a, n) == x
    decreases n
  {
    if n > 0 {
      var b := mem[a..a + n];
      assert b[0] == mem[a] && b[1..] == mem[a + 1..a + n];
      NumberRoundTrip(mem, a + 1, n - 1, x / 0x100);
    }
  }

  lemma {:induction false} SameNumber(mem: seq<byte>, mem': seq<byte>, a: nat, b: nat, n: nat)
    requires a + n <= |mem| && b + n <= |mem'| && mem[a..a + n] == mem'[b..b + n]
    ensures NumberAt(mem, a, n) == NumberAt(mem', b, n)
    decreases n
  {
    if n > 0 {
      var x, y := mem[a..a + n], mem'[b..b + n];
      assert mem[a] == x[0] && mem'[b] == y[0];
      assert mem[a + 1..a + n] == x[1..] && mem'[b + 1..b + n] == y[1..];
      SameNumber(mem, mem', a + 1, b + 1, n - 1);
    }
  }

  /** Programming `now` over `was` leaves `now`: no bit it needs has been cleared. */
  predicate Clears(was: seq<byte>, now: seq<byte>)
    requires |was| == |now|
  {
    forall i :: 0 <= i < |now| ==> BitAnd(was[i], now[i]) == now[i]
  }

  lemma ClearsAppend(was: seq<byte>, was': seq<byte>, now: seq<byte>, now': seq<byte>)
    requires |was| == |now| && |was'| == |now'|
    ensures Clears(was + was', now + now') <==> Clears(was, now) && Clears(was', now')
  {
    if Clears(was + was', now + now') {
      forall i | 0 <= i < |now'| ensures BitAnd(was'[i], now'[i]) == now'[i] {
        assert (was + was')[|now| + i] == was'[i] && (now + now')[|now| + i] == now'[i];
      }
      forall i | 0 <= i < |now| ensures BitAnd(was[i], now[i]) == now[i] {
        assert (was + was')[i] == was[i] && (now + now')[i] == now[i];
      }
    }
  }

  lemma WithinAppend(b: seq<bool>, b': seq<bool>, a: seq<bool>, a': seq<bool>)
    requires |a| == |b| && |a'| == |b'|
    ensures Within(b + b', a + a') <==> Within(b, a) && Within(b', a')
  {
    if Within(b + b', a + a') {
      forall i | 0 <= i < |b'| && b'[i] ensures a'[i] {
        assert (b + b')[|b| + i] && (a + a')[|b| + i] == a'[i];
      }
      forall i | 0 <= i < |b| && b[i] ensures a[i] {
        assert (b + b')[i] && (a + a')[i] == a[i];
      }
    }
  }

  /** A word is contained in another exactly when its low byte and its rest are. */
  lemma AndBytes(a: nat, b: nat, k: nat)
    requires b < Pow2(8 + k)
    ensures b / 0x100 < Pow2(k)
    ensures BitAnd(a, b) == b
            <==> BitAnd(a % 0x100, b % 0x100) == b % 0x100 && BitAnd(a / 0x100, b / 0x100) == b / 0x100
  {
    assert Pow2(8) == 0x100;
    AboveByte(b, k);
    AndUnder(a, b, 8 + k);
    AndUnder(a % 0x100, b % 0x100, 8);
    AndUnder(a / 0x100, b / 0x100, k);
    ByteDigits(a, k);
    ByteDigits(b, k);
    WithinAppend(Digits(b % 0x100, 8), Digits(b / 0x100, k), Digits(a % 0x100, 8), Digits(a / 0x100, k));
  }

  lemma ClearsByte(a: byte, b: byte)
    ensures Clears([a], [b]) <==> BitAnd(a, b) == b
  {
    assert [a][0] == a && [b][0] == b;
  }

  lemma {:induction false} ClearsNumber(a: nat, b: nat, n: nat)
    requires b < Pow2(8 * n)
    ensures Clears(LittleEndian(a, n), LittleEndian(b, n)) <==> BitAnd(a, b) == b
    decreases n
  {
    if n == 0 {
      AndBelow(a, b);
    } else {
      AndBytes(a, b, 8 * (n - 1));
      ClearsNumber(a / 0x100, b / 0x100, n - 1);
      ClearsAppend([a % 0x100], LittleEndian(a / 0x100, n - 1), [b % 0x100], LittleEndian(b / 0x100, n - 1));
      ClearsByte(a % 0x100, b % 0x100);
    }
  }

  /** For stored words: programmed over one another. */
  lemma ClearsWord(a: u32, b: u32)
    ensures Clears(Le32(a), Le32(b)) <==> BitAnd(a, b) == b
  {
    Pow2Values();
    ClearsNumber(a, b, 4);
  }

  function Le16(x: u16): (b: seq<byte>)
    ensures |b| == 2
  {
    LittleEndian(x, 2)
  }

  function Le32(x: u32): (b: seq<byte>)
    ensures |b| == 4
  {
    LittleEndian(x, 4)
  }

  function U16At(mem: seq<byte>, a: nat): u16
    requires a + 2 <= |mem|
  {
    SpanValues();
    NumberBelow(mem, a, 2);
    NumberAt(mem, a, 2)
  }

  function U32At(mem: seq<byte>, a: nat): u32
    requires a + 4 <= |mem|
  {
    SpanValues();
    NumberBelow(mem, a, 4);
    NumberAt(mem, a, 4)
  }

  lemma Le16RoundTrip(mem: seq<byte>, a: nat, x: u16)
    requires a + 2 <= |mem| && mem[a..a + 2] == Le16(x)
    ensures U16At(mem, a) == x
  {
    SpanValues();
    NumberRoundTrip(mem, a, 2, x);
  }

  lemma Le32RoundTrip(mem: seq<byte>, a: nat, x: u32)
    requires a + 4 <= |mem| && mem[a..a + 4] == Le32(x)
    ensures U32At(mem, a) == x
  {
    SpanValues();
    NumberRoundTrip(mem, a, 4, x);
  }

  /** Only the bytes of a number read back as that number. */
  lemma {:induction false} NumberOnly(mem: seq<byte>, a: nat, n: nat)
    requires a + n <= |mem|
    ensures mem[a..a + n] == LittleEndian(NumberAt(mem, a, n), n)
    decreases n
  {
    if n > 0 {
      var x, b := NumberAt(mem, a, n), mem[a..a + n];
      NumberOnly(mem, a + 1, n - 1);
      assert x % 0x100 == mem[a] && x / 0x100 == NumberAt(mem, a + 1, n - 1);
      assert b == [mem[a]] + mem[a + 1..a + n];
    }
  }

  lemma BlankWord(mem: seq<byte>, a: nat)
    requires a + 4 <= |mem| && mem[a] == mem[a + 1] == mem[a + 2] == mem[a + 3] == 0xFF
    ensures U32At(mem, a) == 0xFFFF_FFFF
  {
    assert NumberAt(mem, a + 3, 1) == 0xFF;
    assert NumberAt(mem, a + 2, 2) == 0xFFFF;
    assert NumberAt(mem, a + 1, 3) == 0xFF_FFFF;
  }
}
