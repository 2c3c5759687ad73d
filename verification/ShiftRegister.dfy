/** Linear feedback shift registers over bit strings, for any width and any polynomial.

    Index 0 of a word is the bit the register shifts out next, and the polynomial is written
    the same way round without its leading term.  A checksum routine xors a whole message byte
    into its register and then shifts eight times; what follows shows that this absorbs the
    byte bit by bit, and what a register can therefore detect. */
module ShiftRegister {

  function Xor(a: seq<bool>, b: seq<bool>): (r: seq<bool>)
    requires |a| == |b|
    ensures |r| == |a| && forall i :: 0 <= i < |a| ==> r[i] == (a[i] != b[i])
  {
    seq(|a|, i requires 0 <= i < |a| => a[i] != b[i])
  }

  function Zeros(n: nat): (r: seq<bool>)
    ensures |r| == n && forall i :: 0 <= i < n ==> !r[i]
  {
    seq(n, i => false)
  }

  function Pad(bits: seq<bool>, width: nat): (r: seq<bool>)
    requires |bits| <= width
    ensures |r| == width
  {
    bits + Zeros(width - |bits|)
  }

  /** One shift of the register. */
  function Step(poly: seq<bool>, c: seq<bool>): (r: seq<bool>)
    requires |poly| == |c| > 0
    ensures |r| == |c|
  {
    var moved := c[1..] + [false];
    if c[0] then Xor(moved, poly) else moved
  }

  function Shifts(poly: seq<bool>, c: seq<bool>, n: nat): (r: seq<bool>)
    requires |poly| == |c| > 0
    ensures |r| == |c|
    decreases n
  {
    if n == 0 then c else Shifts(poly, Step(poly, c), n - 1)
  }

  /** One shift after xoring a single message bit in. */
  function Absorb(poly: seq<bool>, c: seq<bool>, bit: bool): (r: seq<bool>)
    requires |poly| == |c| > 0
    ensures |r| == |c|
  {
    Step(poly, c[0 := c[0] != bit])
  }

  /** The register after absorbing a message bit by bit. */
  function Bits(poly: seq<bool>, c: seq<bool>, bits: seq<bool>): (r: seq<bool>)
    requires |poly| == |c| > 0
    ensures |r| == |c|
    decreases |bits|
  {
    if bits == [] then c else Bits(poly, Absorb(poly, c, bits[0]), bits[1..])
  }

  // ---------------------------------------------------------------- absorbing whole words

  /** Only the first bit of a word xored in decides the next shift; the rest is moved down. */
  lemma Peel(poly: seq<bool>, c: seq<bool>, w: seq<bool>)
    requires |poly| == |c| == |w| > 0
    ensures Step(poly, Xor(c, w)) == Xor(Absorb(poly, c, w[0]), w[1..] + [false])
  {
  }

  /** Xoring a string in and shifting once per bit absorbs it bit by bit. */
  lemma {:induction false} StringIsBits(poly: seq<bool>, c: seq<bool>, bits: seq<bool>)
    requires |poly| == |c| > 0 && |bits| <= |c|
    ensures Shifts(poly, Xor(c, Pad(bits, |c|)), |bits|) == Bits(poly, c, bits)
    decreases |bits|
  {
    var w := Pad(bits, |c|);
    if bits == [] {
      assert Xor(c, w) == c;
    } else {
      Peel(poly, c, w);
      assert w[1..] + [false] == Pad(bits[1..], |c|);
      StringIsBits(poly, Absorb(poly, c, bits[0]), bits[1..]);
    }
  }

  lemma {:induction false} BitsAppend(poly: seq<bool>, c: seq<bool>, x: seq<bool>, y: seq<bool>)
    requires |poly| == |c| > 0
    ensures Bits(poly, c, x + y) == Bits(poly, Bits(poly, c, x), y)
    decreases |x|
  {
    if x == [] {
      assert x + y == y;
    } else {
      assert (x + y)[1..] == x[1..] + y;
      BitsAppend(poly, Absorb(poly, c, x[0]), x[1..], y);
    }
  }

  // ---------------------------------------------------------------- what a register detects

  lemma StepUndoable(poly: seq<bool>, a: seq<bool>, b: seq<bool>)
    requires |poly| == |a| == |b| > 0 && poly[|poly| - 1]
    requires Step(poly, a) == Step(poly, b)
    ensures a == b
  {
    var s, t, last := Step(poly, a), Step(poly, b), |a| - 1;
    assert a[0] == s[last] && b[0] == t[last];
    forall i | 0 < i <= last ensures a[i] == b[i] {
      assert s[i - 1] == t[i - 1];
    }
  }

  lemma {:induction false} ShiftsUndoable(poly: seq<bool>, a: seq<bool>, b: seq<bool>, n: nat)
    requires |poly| == |a| == |b| > 0 && poly[|poly| - 1]
    requires Shifts(poly, a, n) == Shifts(poly, b, n)
    ensures a == b
    decreases n
  {
    if n > 0 {
      ShiftsUndoable(poly, Step(poly, a), Step(poly, b), n - 1);
      StepUndoable(poly, a, b);
    }
  }

  lemma {:induction false} BitsUndoable(poly: seq<bool>, a: seq<bool>, b: seq<bool>, bits: seq<bool>)
    requires |poly| == |a| == |b| > 0 && poly[|poly| - 1]
    requires Bits(poly, a, bits) == Bits(poly, b, bits)
    ensures a == b
    decreases |bits|
  {
    if bits != [] {
      var a', b' := a[0 := a[0] != bits[0]], b[0 := b[0] != bits[0]];
      BitsUndoable(poly, Step(poly, a'), Step(poly, b'), bits[1..]);
      StepUndoable(poly, a', b');
      forall i | 0 <= i < |a| ensures a[i] == b[i] {
        assert a'[i] == b'[i];
      }
    }
  }

  /** BURST DETECTION.  Two messages of any length that differ only inside a window of bits no
      wider than the register leave different registers behind, whatever the register held
      before. */
  lemma BurstDetected(poly: seq<bool>, c: seq<bool>, before: seq<bool>, x: seq<bool>, y: seq<bool>, after: seq<bool>)
    requires |poly| == |c| > 0 && poly[|poly| - 1]
    requires |x| == |y| <= |c| && x != y
    ensures Bits(poly, c, before + x + after) != Bits(poly, c, before + y + after)
  {
    if Bits(poly, c, before + x + after) == Bits(poly, c, before + y + after) {
      BitsAppend(poly, c, before + x, after);
      BitsAppend(poly, c, before + y, after);
      BitsUndoable(poly, Bits(poly, c, before + x), Bits(poly, c, before + y), after);
      WindowDetermined(poly, c, before, x, y);
      assert false;
    }
  }

  lemma WindowDetermined(poly: seq<bool>, c: seq<bool>, before: seq<bool>, x: seq<bool>, y: seq<bool>)
    requires |poly| == |c| > 0 && poly[|poly| - 1] && |x| == |y| <= |c|
    requires Bits(poly, c, before + x) == Bits(poly, c, before + y)
    ensures x == y
  {
    var c' := Bits(poly, c, before);
    BitsAppend(poly, c, before, x);
    BitsAppend(poly, c, before, y);
    StringIsBits(poly, c', x);
    StringIsBits(poly, c', y);
    var v, w := Pad(x, |c|), Pad(y, |c|);
    ShiftsUndoable(poly, Xor(c', v), Xor(c', w), |x|);
    forall i | 0 <= i < |x| ensures x[i] == y[i] {
      assert Xor(c', v)[i] == Xor(c', w)[i];
      assert v[i] == x[i] && w[i] == y[i];
    }
  }

  /** LINEARITY.  Whether two messages collide depends on their difference alone. */
  lemma {:induction false} Linear(poly: seq<bool>, a: seq<bool>, b: seq<bool>, x: seq<bool>, y: seq<bool>)
    requires |poly| == |a| == |b| > 0 && |x| == |y|
    ensures Bits(poly, Xor(a, b), Xor(x, y)) == Xor(Bits(poly, a, x), Bits(poly, b, y))
    decreases |x|
  {
    if x != [] {
      var a', b' := a[0 := a[0] != x[0]], b[0 := b[0] != y[0]];
      assert Xor(a, b)[0 := Xor(a, b)[0] != Xor(x, y)[0]] == Xor(a', b');
      assert Step(poly, Xor(a', b')) == Xor(Step(poly, a'), Step(poly, b'));
      assert Xor(x, y)[1..] == Xor(x[1..], y[1..]);
      Linear(poly, Step(poly, a'), Step(poly, b'), x[1..], y[1..]);
    }
  }

  // ---------------------------------------------------------------- parity

  /** True when an odd number of bits is set. */
  function Odd(bits: seq<bool>): bool {
    if bits == [] then false else bits[0] != Odd(bits[1..])
  }

  lemma {:induction false} OddXor(a: seq<bool>, b: seq<bool>)
    requires |a| == |b|
    ensures Odd(Xor(a, b)) == (Odd(a) != Odd(b))
    decreases |a|
  {
    if a != [] {
      OddXor(a[1..], b[1..]);
      assert Xor(a, b)[1..] == Xor(a[1..], b[1..]);
    }
  }

  lemma {:induction false} OddAppend(a: seq<bool>, b: seq<bool>)
    ensures Odd(a + b) == (Odd(a) != Odd(b))
    decreases |a|
  {
    if a == [] {
      assert a + b == b;
    } else {
      OddAppend(a[1..], b);
      assert (a + b)[1..] == a[1..] + b;
    }
  }

  /** PARITY.  When the polynomial has an odd number of terms besides its leading one, the
      parity of the register is the parity of everything absorbed: every error that flips an
      odd number of bits is detected. */
  lemma {:induction false} ParityTracked(poly: seq<bool>, c: seq<bool>, bits: seq<bool>)
    requires |poly| == |c| > 0 && Odd(poly)
    ensures Odd(Bits(poly, c, bits)) == (Odd(c) != Odd(bits))
    decreases |bits|
  {
    if bits != [] {
      var c' := c[0 := c[0] != bits[0]];
      assert c'[1..] == c[1..];
      var moved := c'[1..] + [false];
      OddAppend(c'[1..], [false]);
      OddXor(moved, poly);
      ParityTracked(poly, Step(poly, c'), bits[1..]);
    }
  }
}
