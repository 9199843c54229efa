/** The PCG random number generator: a 64-bit linear congruential state whose output is a rotated xorshift. */
module Pcg {
  import opened Arith

  const MODULUS: nat := 0x1_0000_0000_0000_0000
  const RANGE: nat := 0x1_0000_0000
  const MULTIPLIER: nat := 6364136223846793005

  type U64 = x: int | 0 <= x < MODULUS
  type U32 = x: int | 0 <= x < RANGE

  /** The state after s. */
  function Step(s: U64, inc: U64): U64 {
    (s * MULTIPLIER + inc) % MODULUS
  }

  function By18(x: bv64): bv64 {
    x >> 18
  }

  function By27(x: bv64): bv64 {
    x >> 27
  }

  function Xor(x: bv64, y: bv64): bv64 {
    x ^ y
  }

  /** The cut to 32 bits. */
  function Narrow(w: bv64): bv32 {
    (w & 0xFFFF_FFFF) as bv32
  }

  function XorShifted(x: bv64): bv32 {
    Narrow(By27(Xor(By18(x), x)))
  }

  function TopBits(x: bv64): (rot: bv32)
    ensures rot < 32
  {
    (x >> 59) as bv32
  }

  function RotatedRight(v: bv32, rot: bv32): bv32
    requires rot < 32
  {
    (v >> rot) | (v << ((0 - rot) & 31))
  }

  /** What state s gives: a 32-bit xorshift of the high bits, rotated by the top five. */
  function Output(s: U64): U32 {
    RotatedRight(XorShifted(s as bv64), TopBits(s as bv64)) as U32
  }

  /** The state n steps after s. */
  function Iterate(n: nat, s: U64, inc: U64): (r: U64) {
    if n == 0 then s else Iterate(n - 1, Step(s, inc), inc)
  }

  const WITNESS: U64 := 0x07FF_FE00_0000_0000

  lemma WitnessOutput()
    ensures Output(WITNESS) == 0xFFFF_FFFF
  {
  }

  // ---------- how often each output comes up ----------

  /** The part of a state that is free once its output is fixed: the rotation and the low 27 bits. */
  function Rest(x: bv64): bv32 {
    (((x >> 59) << 27) | (x & 0x7FF_FFFF)) as bv32
  }

  lemma OneMorePlace(v: bv32, rot: bv32)
    requires rot < 31
    ensures RotatedRight(v, rot + 1) == RotatedRight(RotatedRight(v, rot), 1)
  {
  }

  /** n places to the right, one by one. */
  function Turned(v: bv32, n: nat): bv32 {
    if n == 0 then v else RotatedRight(Turned(v, n - 1), 1)
  }

  lemma {:induction false} RotationIsTurns(v: bv32, rot: bv32)
    requires rot < 32
    ensures RotatedRight(v, rot) == Turned(v, rot as nat)
    decreases rot as nat
  {
    if rot > 0 {
      PlacesBefore(rot);
      RotationIsTurns(v, rot - 1);
      OneMorePlace(v, rot - 1);
      hide RotatedRight;
    }
  }

  lemma PlacesBefore(rot: bv32)
    requires 0 < rot < 32
    ensures (rot - 1) as nat == rot as nat - 1
  {
  }

  lemma {:induction false} TurnsAdd(v: bv32, m: nat, n: nat)
    ensures Turned(Turned(v, m), n) == Turned(v, m + n)
  {
    hide RotatedRight;
    if n > 0 {
      TurnsAdd(v, m, n - 1);
    }
  }

  lemma FullTurn(v: bv32)
    ensures Turned(v, 32) == v
  {
    RotationIsTurns(v, 31);
    assert RotatedRight(RotatedRight(v, 31), 1) == v;
  }

  /** Rotation back by the same number of places. */
  function RotatedBack(v: bv32, rot: bv32): bv32
    requires rot < 32
  {
    RotatedRight(v, (0 - rot) & 31)
  }

  lemma RotationsUndo(v: bv32, rot: bv32)
    requires rot < 32
    ensures RotatedRight(RotatedBack(v, rot), rot) == v && RotatedBack(RotatedRight(v, rot), rot) == v
  {
    var k := (0 - rot) & 31;
    PlacesLeft(rot);
    RotationIsTurns(v, k);
    RotationIsTurns(RotatedRight(v, k), rot);
    RotationIsTurns(v, rot);
    RotationIsTurns(RotatedRight(v, rot), k);
    TurnsAdd(v, k as nat, rot as nat);
    TurnsAdd(v, rot as nat, k as nat);
    FullTurn(v);
    hide RotatedRight;
  }

  lemma PlacesLeft(rot: bv32)
    requires rot < 32
    ensures ((0 - rot) & 31) < 32
    ensures ((0 - rot) & 31) as nat + rot as nat == if rot == 0 then 0 else 32
  {
    assert rot > 0 ==> (0 - rot) & 31 == 32 - rot;
  }

  /** The 37 high bits of a state from those of the xorshift before its cut. */
  function Unshifted(y: bv64): bv64 {
    Xor(y, Xor(By18(y), By18(By18(y))))
  }

  function Joined(shifted: bv32, rest: bv32): bv64 {
    (((rest >> 27) as bv64) << 32) | (shifted as bv64)
  }

  function Put(h: bv64, rest: bv32): bv64 {
    (h << 27) | ((rest & 0x7FF_FFFF) as bv64)
  }

  /** The state with a given xorshift and a given rest. */
  function StateOf(shifted: bv32, rest: bv32): bv64 {
    Put(Unshifted(Joined(shifted, rest)), rest)
  }

  function By32(x: bv64): bv64 {
    x >> 32
  }

  function By59(x: bv64): bv64 {
    x >> 59
  }

  predicate SameLow(x: bv64, rest: bv32) {
    x & 0x7FF_FFFF == (rest & 0x7FF_FFFF) as bv64
  }

  function Top(rest: bv32): bv64 {
    (rest >> 27) as bv64
  }

  /** A word of at most 37 bits. */
  predicate Short(y: bv64) {
    y < 0x20_0000_0000
  }

  lemma XorRules(a: bv64, b: bv64)
    ensures By18(Xor(a, b)) == Xor(By18(a), By18(b))
    ensures By27(Xor(a, b)) == Xor(By27(a), By27(b))
  {
  }

  lemma XorTop(a: bv64, b: bv64)
    ensures By32(Xor(a, b)) == Xor(By32(a), By32(b))
  {
  }

  lemma XorCancels(a: bv64, b: bv64, c: bv64)
    ensures Xor(Xor(b, c), Xor(a, Xor(b, c))) == a
  {
  }

  lemma XorUndone(a: bv64, b: bv64, c: bv64)
    ensures Xor(Xor(b, a), Xor(Xor(c, b), Xor(0, c))) == a
  {
  }

  lemma XorZero(a: bv64)
    ensures Xor(a, 0) == a && Xor(0, a) == a && Xor(a, Xor(0, 0)) == a
  {
  }

  lemma ShortRules(a: bv64, b: bv64)
    requires Short(a) && Short(b)
    ensures Short(Xor(a, b)) && Short(By18(a))
    ensures By18(By18(By18(a))) == 0 && By32(By18(a)) == 0 && By32(By18(By18(a))) == 0
  {
  }

  lemma ShiftsSwapOne(x: bv64)
    ensures By27(By18(x)) == x >> 45
  {
  }

  lemma ShiftsSwapTwo(x: bv64)
    ensures By18(By27(x)) == x >> 45
  {
  }

  lemma ShortAfter27(x: bv64)
    ensures Short(By27(x))
  {
  }

  /** The xorshift before its cut, of the 37 high bits. */
  lemma BeforeCut(x: bv64)
    ensures By27(Xor(By18(x), x)) == Xor(By18(By27(x)), By27(x))
  {
    ShiftsSwapOne(x);
    ShiftsSwapTwo(x);
    hide By18, By27, Xor;
    XorRules(By18(x), x);
  }

  /** The two directions undo each other. */
  lemma UnshiftedUndoes(y: bv64)
    requires Short(y)
    ensures Short(Unshifted(y)) && Xor(By18(Unshifted(y)), Unshifted(y)) == y
    ensures By32(Unshifted(y)) == By32(y)
  {
    hide By18, By32, Xor, Short;
    var a, b := By18(y), By18(By18(y));
    ShortRules(y, y);
    ShortRules(a, a);
    ShortRules(a, b);
    ShortRules(y, Xor(a, b));
    XorRules(y, Xor(a, b));
    XorRules(a, b);
    XorTop(y, Xor(a, b));
    XorTop(a, b);
    XorZero(By32(y));
    XorZero(b);
    XorCancels(y, a, b);
  }

  lemma ShiftUndone(g: bv64)
    requires Short(g)
    ensures Short(Xor(By18(g), g)) && Unshifted(Xor(By18(g), g)) == g && By32(Xor(By18(g), g)) == By32(g)
  {
    hide By18, By32, Xor, Short;
    var a, b := By18(g), By18(By18(g));
    ShortRules(g, g);
    ShortRules(a, g);
    XorRules(a, g);
    XorRules(b, a);
    XorTop(a, g);
    XorZero(By32(g));
    XorUndone(g, a, b);
  }

  lemma JoinedParts(shifted: bv32, rest: bv32)
    ensures Short(Joined(shifted, rest)) && Narrow(Joined(shifted, rest)) == shifted
    ensures By32(Joined(shifted, rest)) == Top(rest)
  {
  }

  lemma PutParts(h: bv64, rest: bv32)
    requires Short(h)
    ensures By27(Put(h, rest)) == h && By59(Put(h, rest)) == By32(h)
    ensures SameLow(Put(h, rest), rest)
  {
  }

  lemma RestIs(x: bv64, rest: bv32)
    requires By59(x) == Top(rest) && SameLow(x, rest)
    ensures Rest(x) == rest && TopBits(x) == rest >> 27 < 32
  {
  }

  lemma RestParts(x: bv64)
    ensures By59(x) == Top(Rest(x)) && SameLow(x, Rest(x))
    ensures TopBits(x) == Rest(x) >> 27 < 32 && By59(x) == By32(By27(x))
  {
  }

  lemma JoinedBack(y: bv64, rest: bv32)
    requires Short(y) && By32(y) == Top(rest)
    ensures Joined(Narrow(y), rest) == y
  {
  }

  lemma PutBack(x: bv64, rest: bv32)
    requires SameLow(x, rest)
    ensures Put(By27(x), rest) == x
  {
  }

  lemma StateOfShifted(shifted: bv32, rest: bv32)
    ensures XorShifted(StateOf(shifted, rest)) == shifted && Rest(StateOf(shifted, rest)) == rest
    ensures TopBits(StateOf(shifted, rest)) == rest >> 27 < 32
  {
    hide By18, By27, By32, By59, Xor, Short, Joined, Put, Unshifted, Rest, TopBits, Narrow, SameLow, Top;
    var y := Joined(shifted, rest);
    var h := Unshifted(y);
    JoinedParts(shifted, rest);
    UnshiftedUndoes(y);
    PutParts(h, rest);
    BeforeCut(Put(h, rest));
    RestIs(Put(h, rest), rest);
  }

  lemma StateOfItself(x: bv64)
    ensures StateOf(XorShifted(x), Rest(x)) == x && TopBits(x) == Rest(x) >> 27 < 32
  {
    hide By18, By27, By32, By59, Xor, Short, Joined, Put, Unshifted, Rest, TopBits, Narrow, SameLow, Top;
    var g := By27(x);
    var y := Xor(By18(g), g);
    BeforeCut(x);
    ShortAfter27(x);
    ShiftUndone(g);
    RestParts(x);
    JoinedBack(y, Rest(x));
    PutBack(x, Rest(x));
  }

  lemma PlacesOf(rest: bv32)
    ensures rest >> 27 < 32
  {
  }

  /** The output of a state, as words. */
  function OutputOf(x: bv64): bv32 {
    RotatedRight(XorShifted(x), TopBits(x))
  }

  /** The state with output v and a given rest, as words. */
  function SourceOf(v: bv32, rest: bv32): bv64 {
    PlacesOf(rest);
    StateOf(RotatedBack(v, rest >> 27), rest)
  }

  lemma OutputOfSource(v: bv32, rest: bv32)
    ensures OutputOf(SourceOf(v, rest)) == v && Rest(SourceOf(v, rest)) == rest
  {
    hide StateOf, RotatedBack, RotatedRight, XorShifted, TopBits, Rest;
    PlacesOf(rest);
    StateOfShifted(RotatedBack(v, rest >> 27), rest);
    RotationsUndo(v, rest >> 27);
  }

  lemma SourceOfOutput(x: bv64)
    ensures SourceOf(OutputOf(x), Rest(x)) == x
  {
    hide StateOf, RotatedBack, RotatedRight, XorShifted, TopBits, Rest;
    StateOfItself(x);
    RotationsUndo(XorShifted(x), TopBits(x));
  }

  // words and numbers

  lemma Shifted64(y: bv64)
    requires y as int < 0x8000_0000_0000_0000
    ensures (y << 1) as int == 2 * (y as int) && ((y << 1) | 1) as int == 2 * (y as int) + 1
  {
    assert y & 0x8000_0000_0000_0000 == 0;
  }

  lemma Shifted32(y: bv32)
    requires y as int < 0x8000_0000
    ensures (y << 1) as int == 2 * (y as int) && ((y << 1) | 1) as int == 2 * (y as int) + 1
  {
    assert y & 0x8000_0000 == 0;
  }

  lemma {:induction false} Word64(n: U64) returns (x: bv64)
    ensures x as int == n
  {
    if n == 0 {
      x := 0;
    } else {
      var y := Word64(n / 2);
      Shifted64(y);
      x := if n % 2 == 0 then y << 1 else (y << 1) | 1;
    }
  }

  lemma {:induction false} Word32(n: U32) returns (x: bv32)
    ensures x as int == n
  {
    if n == 0 {
      x := 0;
    } else {
      var y := Word32(n / 2);
      Shifted32(y);
      x := if n % 2 == 0 then y << 1 else (y << 1) | 1;
    }
  }

  lemma ThereAndBack64(n: U64)
    ensures (n as bv64) as int == n
  {
    var x := Word64(n);
    assert (x as int) as bv64 == x;
  }

  lemma ThereAndBack32(n: U32)
    ensures (n as bv32) as int == n
  {
    var x := Word32(n);
    assert (x as int) as bv32 == x;
  }

  // the output in numbers

  /** The number of a 64-bit word, its half, and its double with a last bit of 0 or 1. */
  function Num64(x: bv64): U64 {
    x as U64
  }

  function Half64(x: bv64): bv64 {
    x >> 1
  }

  function Even64(x: bv64): bv64 {
    x << 1
  }

  function Odd64(x: bv64): bv64 {
    (x << 1) | 1
  }

  lemma DoubleNumber64(y: bv64)
    requires Num64(y) < 0x8000_0000_0000_0000
    ensures Num64(Even64(y)) == 2 * Num64(y) && Num64(Odd64(y)) == 2 * Num64(y) + 1
  {
    Shifted64(y);
  }

  lemma TopClear64(y: bv64)
    requires Num64(y) < 0x8000_0000_0000_0000
    ensures y & 0x8000_0000_0000_0000 == 0
  {
  }

  lemma HalvesBack64(y: bv64)
    requires y & 0x8000_0000_0000_0000 == 0
    ensures Half64(Even64(y)) == y && Half64(Odd64(y)) == y
  {
  }

  lemma WordOfNumber64(x: bv64, y: bv64)
    requires Num64(x) == Num64(y)
    ensures x == y
  {
    BackAndThere(x);
    BackAndThere(y);
  }

  lemma WordFor64(n: U64) returns (x: bv64)
    ensures Num64(x) == n
  {
    x := Word64(n);
  }

  lemma HalfNumber64(x: bv64)
    ensures Num64(Half64(x)) == Num64(x) / 2
    ensures x == if Num64(x) % 2 == 1 then Odd64(Half64(x)) else Even64(Half64(x))
  {
    hide Num64, Half64, Even64, Odd64;
    var n := Num64(x);
    var y := WordFor64(n / 2);
    DoubleNumber64(y);
    TopClear64(y);
    HalvesBack64(y);
    if n % 2 == 1 {
      WordOfNumber64(x, Odd64(y));
    } else {
      WordOfNumber64(x, Even64(y));
    }
  }

  /** The number of a 32-bit word, its half, and its double with a last bit of 0 or 1. */
  function Num32(x: bv32): U32 {
    x as U32
  }

  function Half32(x: bv32): bv32 {
    x >> 1
  }

  function Even32(x: bv32): bv32 {
    x << 1
  }

  function Odd32(x: bv32): bv32 {
    (x << 1) | 1
  }

  lemma DoubleNumber32(y: bv32)
    requires Num32(y) < 0x8000_0000
    ensures Num32(Even32(y)) == 2 * Num32(y) && Num32(Odd32(y)) == 2 * Num32(y) + 1
  {
    Shifted32(y);
  }

  lemma TopClear32(y: bv32)
    requires Num32(y) < 0x8000_0000
    ensures y & 0x8000_0000 == 0
  {
  }

  lemma HalvesBack32(y: bv32)
    requires y & 0x8000_0000 == 0
    ensures Half32(Even32(y)) == y && Half32(Odd32(y)) == y
  {
  }

  lemma WordOfNumber32(x: bv32, y: bv32)
    requires Num32(x) == Num32(y)
    ensures x == y
  {
    WordBack(x);
    WordBack(y);
  }

  lemma WordFor32(n: U32) returns (x: bv32)
    ensures Num32(x) == n
  {
    x := Word32(n);
  }

  lemma HalfNumber32(x: bv32)
    ensures Num32(Half32(x)) == Num32(x) / 2
    ensures x == if Num32(x) % 2 == 1 then Odd32(Half32(x)) else Even32(Half32(x))
  {
    hide Num32, Half32, Even32, Odd32;
    var n := Num32(x);
    var y := WordFor32(n / 2);
    DoubleNumber32(y);
    TopClear32(y);
    HalvesBack32(y);
    if n % 2 == 1 {
      WordOfNumber32(x, Odd32(y));
    } else {
      WordOfNumber32(x, Even32(y));
    }
  }

  lemma NextBit(n: nat, i: nat)
    requires 0 < i
    ensures Bit(n, i) == Bit(n / 2, i - 1)
  {
    DivTwice(n, 2, Pow2(i - 1));
  }

  lemma LastBit(n: nat)
    ensures Bit(n, 0) == n % 2
  {
  }

  lemma BitOfHalf(x: bv64, i: nat)
    requires 0 < i
    ensures Bit(Num64(x), i) == Bit(Num64(Half64(x)), i - 1)
  {
    hide Num64, Bit, Half64, Even64, Odd64;
    HalfNumber64(x);
    NextBit(Num64(x), i);
  }

  lemma BitAbove(n: nat, m: nat, k: nat, i: nat)
    requires m == n / Pow2(k)
    ensures Bit(m, i) == Bit(n, k + i)
  {
    hide Pow2;
    Pow2Adds(k, i);
    DivTwice(n, Pow2(k), Pow2(i));
  }

  // xor and masks

  lemma HalfOfXor(x: bv64, y: bv64)
    ensures Half64(Xor(x, y)) == Xor(Half64(x), Half64(y))
  {
  }

  lemma XorOfEvenEven(x: bv64, y: bv64)
    ensures Xor(Even64(x), Even64(y)) == Even64(Xor(x, y))
  {
  }

  lemma XorOfEvenOdd(x: bv64, y: bv64)
    ensures Xor(Even64(x), Odd64(y)) == Odd64(Xor(x, y))
  {
  }

  lemma XorOfOddEven(x: bv64, y: bv64)
    ensures Xor(Odd64(x), Even64(y)) == Odd64(Xor(x, y))
  {
  }

  lemma XorOfOddOdd(x: bv64, y: bv64)
    ensures Xor(Odd64(x), Odd64(y)) == Even64(Xor(x, y))
  {
  }

  lemma LastOfXor(x: bv64, y: bv64)
    ensures Num64(Xor(x, y)) % 2 == (Num64(x) % 2 + Num64(y) % 2) % 2
  {
    hide Num64, Half64, Even64, Odd64, Xor;
    HalfNumber64(x);
    HalfNumber64(y);
    HalfNumber64(Xor(x, y));
    HalfOfXor(x, y);
    var u, v := Half64(x), Half64(y);
    DoubleNumber64(Xor(u, v));
    XorOfEvenEven(u, v);
    XorOfEvenOdd(u, v);
    XorOfOddEven(u, v);
    XorOfOddOdd(u, v);
  }

  function Masked(x: bv64, y: bv64): bv64 {
    x & y
  }

  lemma HalfOfMasked(x: bv64, y: bv64)
    ensures Half64(Masked(x, y)) == Masked(Half64(x), Half64(y))
  {
  }

  lemma MaskedOfEvenEven(x: bv64, y: bv64)
    ensures Masked(Even64(x), Even64(y)) == Even64(Masked(x, y))
  {
  }

  lemma MaskedOfEvenOdd(x: bv64, y: bv64)
    ensures Masked(Even64(x), Odd64(y)) == Even64(Masked(x, y))
  {
  }

  lemma MaskedOfOddEven(x: bv64, y: bv64)
    ensures Masked(Odd64(x), Even64(y)) == Even64(Masked(x, y))
  {
  }

  lemma MaskedOfOddOdd(x: bv64, y: bv64)
    ensures Masked(Odd64(x), Odd64(y)) == Odd64(Masked(x, y))
  {
  }

  lemma LastOfMasked(x: bv64, y: bv64)
    ensures Num64(Masked(x, y)) % 2 == if Num64(y) % 2 == 1 then Num64(x) % 2 else 0
  {
    hide Num64, Half64, Even64, Odd64, Masked;
    HalfNumber64(x);
    HalfNumber64(y);
    HalfNumber64(Masked(x, y));
    HalfOfMasked(x, y);
    var u, v := Half64(x), Half64(y);
    DoubleNumber64(Masked(u, v));
    MaskedOfEvenEven(u, v);
    MaskedOfEvenOdd(u, v);
    MaskedOfOddEven(u, v);
    MaskedOfOddOdd(u, v);
  }

  lemma {:induction false} BitOfXor(x: bv64, y: bv64, i: nat)
    ensures Bit(Num64(Xor(x, y)), i) == (Bit(Num64(x), i) + Bit(Num64(y), i)) % 2
    decreases i
  {
    hide Num64, Bit, Half64, Xor;
    LastOfXor(x, y);
    LastBit(Num64(x));
    LastBit(Num64(y));
    LastBit(Num64(Xor(x, y)));
    if i > 0 {
      HalfOfXor(x, y);
      BitOfXor(Half64(x), Half64(y), i - 1);
      BitOfHalf(x, i);
      BitOfHalf(y, i);
      BitOfHalf(Xor(x, y), i);
    }
  }

  lemma {:induction false} BitOfMasked(x: bv64, y: bv64, i: nat)
    ensures Bit(Num64(Masked(x, y)), i) == if Bit(Num64(y), i) == 1 then Bit(Num64(x), i) else 0
    decreases i
  {
    hide Num64, Bit, Half64, Masked;
    LastOfMasked(x, y);
    LastBit(Num64(x));
    LastBit(Num64(y));
    LastBit(Num64(Masked(x, y)));
    if i > 0 {
      HalfOfMasked(x, y);
      BitOfMasked(Half64(x), Half64(y), i - 1);
      BitOfHalf(x, i);
      BitOfHalf(y, i);
      BitOfHalf(Masked(x, y), i);
    }
  }

  /** All bits of 2^k - 1 below bit k are set. */
  lemma {:induction false} AllOnes(k: nat, i: nat)
    requires i < k
    ensures Bit(Pow2(k) - 1, i) == 1
    decreases i
  {
    if i == 0 {
      LastBit(Pow2(k) - 1);
    } else {
      AllOnes(k - 1, i - 1);
      NextBit(Pow2(k) - 1, i);
      assert (Pow2(k) - 1) / 2 == Pow2(k - 1) - 1;
    }
  }

  // shifts

  /** The word shifted to the right place by place. */
  function Shifted(x: bv64, n: nat): bv64 {
    if n == 0 then x else Half64(Shifted(x, n - 1))
  }

  lemma {:induction false} ShiftedNumber(x: bv64, n: nat)
    ensures Num64(Shifted(x, n)) == Num64(x) / Pow2(n)
  {
    hide Num64, Half64, Even64, Odd64;
    if n > 0 {
      ShiftedNumber(x, n - 1);
      HalfNumber64(Shifted(x, n - 1));
      DivTwice(Num64(x), Pow2(n - 1), 2);
    }
  }

  lemma {:induction false} ShiftsAdd(x: bv64, m: nat, n: nat)
    ensures Shifted(Shifted(x, m), n) == Shifted(x, m + n)
  {
    hide Half64;
    if n > 0 {
      ShiftsAdd(x, m, n - 1);
    }
  }

  function By1(x: bv64): bv64 {
    x >> 1
  }

  function By2(x: bv64): bv64 {
    x >> 2
  }

  function By4(x: bv64): bv64 {
    x >> 4
  }

  function By5(x: bv64): bv64 {
    x >> 5
  }

  function By9(x: bv64): bv64 {
    x >> 9
  }

  lemma Add2(x: bv64)
    ensures By1(By1(x)) == By2(x)
  {
  }

  lemma Add4(x: bv64)
    ensures By2(By2(x)) == By4(x)
  {
  }

  lemma Add5(x: bv64)
    ensures By1(By4(x)) == By5(x)
  {
  }

  lemma Add9(x: bv64)
    ensures By4(By5(x)) == By9(x)
  {
  }

  lemma Add18(x: bv64)
    ensures By9(By9(x)) == By18(x)
  {
  }

  lemma Add27(x: bv64)
    ensures By9(By18(x)) == By27(x)
  {
  }

  lemma Add32(x: bv64)
    ensures By5(By27(x)) == By32(x)
  {
  }

  lemma Add59(x: bv64)
    ensures By27(By32(x)) == By59(x)
  {
  }

  lemma Places1(x: bv64)
    ensures Shifted(x, 1) == By1(x)
  {
    assert Shifted(x, 0) == x;
  }

  lemma Places2(x: bv64)
    ensures Shifted(x, 2) == By2(x)
  {
    hide Shifted, By1, By2;
    Places1(x);
    Places1(By1(x));
    ShiftsAdd(x, 1, 1);
    Add2(x);
  }

  lemma Places4(x: bv64)
    ensures Shifted(x, 4) == By4(x)
  {
    hide Shifted, By2, By4;
    Places2(x);
    Places2(By2(x));
    ShiftsAdd(x, 2, 2);
    Add4(x);
  }

  lemma Places5(x: bv64)
    ensures Shifted(x, 5) == By5(x)
  {
    hide Shifted, By1, By4, By5;
    Places4(x);
    Places1(By4(x));
    ShiftsAdd(x, 4, 1);
    Add5(x);
  }

  lemma Places9(x: bv64)
    ensures Shifted(x, 9) == By9(x)
  {
    hide Shifted, By4, By5, By9;
    Places5(x);
    Places4(By5(x));
    ShiftsAdd(x, 5, 4);
    Add9(x);
  }

  lemma Places18(x: bv64)
    ensures Shifted(x, 18) == By18(x)
  {
    hide Shifted, By9, By18;
    Places9(x);
    Places9(By9(x));
    ShiftsAdd(x, 9, 9);
    Add18(x);
  }

  lemma Places27(x: bv64)
    ensures Shifted(x, 27) == By27(x)
  {
    hide Shifted, By9, By18, By27;
    Places18(x);
    Places9(By18(x));
    ShiftsAdd(x, 18, 9);
    Add27(x);
  }

  lemma Places32(x: bv64)
    ensures Shifted(x, 32) == By32(x)
  {
    hide Shifted, By5, By27, By32;
    Places27(x);
    Places5(By27(x));
    ShiftsAdd(x, 27, 5);
    Add32(x);
  }

  lemma Places59(x: bv64)
    ensures Shifted(x, 59) == By59(x)
  {
    hide Shifted, By27, By32, By59;
    Places32(x);
    Places27(By32(x));
    ShiftsAdd(x, 32, 27);
    Add59(x);
  }

  // the cut to 32 bits

  lemma NarrowDoubles(w: bv64)
    ensures Narrow(Even64(w)) == Even32(Narrow(w)) && Narrow(Odd64(w)) == Odd32(Narrow(w))
  {
  }

  /** A number below 2^32 as a word of either width. */
  lemma {:induction false} BothWidths(n: U32) returns (z: bv32, w: bv64)
    ensures Num32(z) == n && Num64(w) == n && Narrow(w) == z
  {
    hide Num32, Num64, Narrow, Even32, Even64, Odd32, Odd64;
    if n == 0 {
      z, w := 0, 0;
      Zeros();
    } else {
      var y, v := BothWidths(n / 2);
      DoubleNumber32(y);
      DoubleNumber64(v);
      NarrowDoubles(v);
      if n % 2 == 0 {
        z, w := Even32(y), Even64(v);
      } else {
        z, w := Odd32(y), Odd64(v);
      }
    }
  }

  lemma Zeros()
    ensures Num64(0) == 0 && Num32(0) == 0 && Narrow(0) == 0
  {
  }

  // one turn to the right

  function Or(y: bv32, m: bv32): bv32 {
    y | m
  }

  predicate NoneCommon(y: bv32, m: bv32) {
    y & m == 0
  }

  lemma HalvesOfOr(y: bv32, m: bv32)
    ensures Half32(Or(y, m)) == Or(Half32(y), Half32(m))
  {
  }

  lemma HalvesNotCommon(y: bv32, m: bv32)
    requires NoneCommon(y, m)
    ensures NoneCommon(Half32(y), Half32(m))
  {
    HalvesOfBoth(y, m);
  }

  lemma HalvesOfBoth(y: bv32, m: bv32)
    ensures (y & m) >> 1 == (y >> 1) & (m >> 1)
  {
  }

  lemma OddsInCommon(y: bv32, m: bv32)
    ensures !NoneCommon(Odd32(y), Odd32(m))
  {
    assert Odd32(y) & 1 == 1 && Odd32(m) & 1 == 1;
  }

  lemma OrOfEvenEven(y: bv32, m: bv32)
    ensures Or(Even32(y), Even32(m)) == Even32(Or(y, m))
  {
  }

  lemma OrOfEvenOdd(y: bv32, m: bv32)
    ensures Or(Even32(y), Odd32(m)) == Odd32(Or(y, m))
  {
  }

  lemma OrOfOddEven(y: bv32, m: bv32)
    ensures Or(Odd32(y), Even32(m)) == Odd32(Or(y, m))
  {
  }

  /** Words without a bit in common are put together by adding their numbers. */
  lemma {:induction false} OrAdds(y: bv32, m: bv32)
    requires NoneCommon(y, m)
    ensures Num32(Or(y, m)) == Num32(y) + Num32(m)
    decreases Num32(y) + Num32(m)
  {
    hide Num32, Half32, Even32, Odd32, Or, NoneCommon;
    var u, v := Half32(y), Half32(m);
    HalfNumber32(y);
    HalfNumber32(m);
    HalfNumber32(Or(y, m));
    HalvesOfOr(y, m);
    HalvesNotCommon(y, m);
    if Num32(y) == 0 && Num32(m) == 0 {
      ZeroOrZero(y, m);
    } else {
      OrAdds(u, v);
      DoubleNumber32(Or(u, v));
      OrOfEvenEven(u, v);
      OrOfEvenOdd(u, v);
      OrOfOddEven(u, v);
      OddsInCommon(u, v);
    }
  }

  lemma ZeroOrZero(y: bv32, m: bv32)
    requires Num32(y) == 0 && Num32(m) == 0
    ensures Num32(Or(y, m)) == 0
  {
    WordOfNumber32(y, 0);
    WordOfNumber32(m, 0);
  }

  lemma TurnedDoubles(y: bv32)
    requires y & 0x8000_0000 == 0
    ensures RotatedRight(Even32(y), 1) == y && RotatedRight(Odd32(y), 1) == Or(y, 0x8000_0000)
    ensures NoneCommon(y, 0x8000_0000)
  {
  }

  lemma TopNumber()
    ensures Num32(0x8000_0000) == 0x8000_0000
  {
  }

  function Turn(v: bv32): bv32 {
    RotatedRight(v, 1)
  }

  /** One turn: the last bit goes to the top, the others one place down. */
  lemma TurnNumber(v: bv32)
    ensures Num32(Turn(v)) == Num32(v) / 2 + Num32(v) % 2 * 0x8000_0000
  {
    hide Num32, Half32, Even32, Odd32, Or, NoneCommon, RotatedRight;
    var y := Half32(v);
    HalfNumber32(v);
    TopClear32(y);
    TurnedDoubles(y);
    OrAdds(y, 0x8000_0000);
    TopNumber();
  }

  lemma Pow2Is32()
    ensures Pow2(32) == RANGE && Pow2(31) == 0x8000_0000
  {
    assert Pow2(4) == 16 && Pow2(3) == 8;
    Pow2Adds(4, 4);
    Pow2Adds(8, 8);
    Pow2Adds(16, 16);
    assert Pow2(32) == 2 * Pow2(31);
  }

  lemma NextTurn(v: nat, n: nat)
    requires 0 < n <= 32
    ensures var w := v / Pow2(n - 1) + v % Pow2(n - 1) * Pow2(33 - n);
      w / 2 + w % 2 * 0x8000_0000 == v / Pow2(n) + v % Pow2(n) * Pow2(32 - n)
  {
    assert Pow2(n) == 2 * Pow2(n - 1) && Pow2(33 - n) == 2 * Pow2(32 - n);
    Pow2Is32();
    Pow2Adds(n - 1, 32 - n);
    hide Pow2;
    TurnOf(v, Pow2(n - 1), Pow2(32 - n));
  }

  lemma TurnOf(v: nat, a: nat, c: nat)
    requires 0 < a && a * c == 0x8000_0000
    ensures var w := v / a + v % a * (2 * c); w / 2 + w % 2 * 0x8000_0000 == v / (2 * a) + v % (2 * a) * c
  {
    var q := v / a;
    TurnOfParts(a, c, q / 2, q % 2, v - a * q);
  }

  lemma TurnOfParts(a: nat, c: nat, p: nat, b: nat, r: nat)
    requires b < 2 && r < a && a * c == 0x8000_0000
    ensures var v := a * (2 * p + b) + r;
      var w := v / a + v % a * (2 * c); w / 2 + w % 2 * 0x8000_0000 == v / (2 * a) + v % (2 * a) * c
  {
    var v := a * (2 * p + b) + r;
    TurnParts(a, c, p, b, r);
    DivModUnique(v, a, 2 * p + b, r);
    DivModUnique(v, 2 * a, p, a * b + r);
  }

  lemma TurnParts(a: nat, c: nat, p: nat, b: nat, r: nat)
    requires b < 2 && r < a && a * c == 0x8000_0000
    ensures a * (2 * p + b) + r == (2 * a) * p + (a * b + r) && 0 <= a * b + r < 2 * a
    ensures var w := 2 * p + b + r * (2 * c); w / 2 == p + r * c && w % 2 == b
    ensures p + r * c + b * 0x8000_0000 == p + (a * b + r) * c
  {
    assert r * (2 * c) == 2 * (r * c);
    assert a * (2 * p + b) == (2 * a) * p + a * b;
    assert (a * b + r) * c == b * (a * c) + r * c;
    assert b == 0 || b == 1;
  }

  /** The rotation to the right, in numbers: the part above bit n comes down, the part below goes to the top. */
  function Rotation(v: nat, n: nat): nat
    requires n <= 32
  {
    Exchanged(v, Pow2(n), Pow2(32 - n))
  }

  function Exchanged(v: nat, a: nat, c: nat): nat
    requires 0 < a
  {
    Arith.MulGrows(a, v / a);
    v / a + v % a * c
  }

  lemma {:induction false} TurnedNumber(v: bv32, n: nat)
    requires n <= 32
    ensures Num32(Turned(v, n)) == Rotation(Num32(v), n)
  {
    hide Num32, RotatedRight, Pow2, Rotation;
    if n == 0 {
      NoRotation(Num32(v));
    } else {
      TurnedNumber(v, n - 1);
      TurnNumber(Turned(v, n - 1));
      NextRotation(Num32(v), n);
    }
  }

  lemma NoRotation(v: nat)
    ensures Rotation(v, 0) == v
  {
  }

  lemma NextRotation(v: nat, n: nat)
    requires 0 < n <= 32
    ensures Rotation(v, n) == Rotation(v, n - 1) / 2 + Rotation(v, n - 1) % 2 * 0x8000_0000
  {
    hide Pow2;
    assert 32 - (n - 1) == 33 - n;
    NextTurn(v, n);
  }

  // the bits of the output

  const LOW_HALF: bv64 := 0xFFFF_FFFF

  lemma MaskNumber()
    ensures Num64(LOW_HALF) == Pow2(32) - 1
  {
    Pow2Is32();
    assert Num64(LOW_HALF) == 0xFFFF_FFFF;
  }

  lemma MaskCuts(t: bv64)
    ensures Narrow(Masked(t, LOW_HALF)) == Narrow(t) && By32(Masked(t, LOW_HALF)) == 0
  {
  }

  lemma NarrowNumber(w: bv64)
    requires By32(w) == 0
    ensures Num32(Narrow(w)) == Num64(w) < RANGE
  {
    hide Num32, Num64, Narrow, By32, Pow2;
    Zeros();
    Places32(w);
    ShiftedNumber(w, 32);
    Pow2Is32();
    var z, v := BothWidths(Num64(w));
    WordOfNumber64(w, v);
  }

  /** The cut to 32 bits keeps the low 32 bits. */
  lemma NarrowBits(t: bv64, i: nat)
    requires i < 32
    ensures Bit(Num32(Narrow(t)), i) == Bit(Num64(t), i)
  {
    hide Num32, Num64, Narrow, Masked, By32, Pow2, Bit;
    MaskCuts(t);
    NarrowNumber(Masked(t, LOW_HALF));
    MaskNumber();
    AllOnes(32, i);
    BitOfMasked(t, LOW_HALF, i);
  }

  lemma By18Bits(x: bv64, i: nat)
    ensures Bit(Num64(By18(x)), i) == Bit(Num64(x), 18 + i)
  {
    hide Num64, By18, Pow2, Bit;
    Places18(x);
    ShiftedNumber(x, 18);
    BitAbove(Num64(x), Num64(By18(x)), 18, i);
  }

  lemma By27Bits(x: bv64, i: nat)
    ensures Bit(Num64(By27(x)), i) == Bit(Num64(x), 27 + i)
  {
    hide Num64, By27, Pow2, Bit;
    Places27(x);
    ShiftedNumber(x, 27);
    BitAbove(Num64(x), Num64(By27(x)), 27, i);
  }

  /** Bit j of the xorshift is bit j + 27 of the state against bit j + 45. */
  lemma XorShiftedBits(x: bv64, j: nat)
    requires j < 32
    ensures Bit(Num32(XorShifted(x)), j) == (Bit(Num64(x), j + 27) + Bit(Num64(x), j + 45)) % 2
  {
    hide Num32, Num64, Narrow, XorShifted, Xor, By18, By27, Bit;
    XorShiftedIs(x);
    var y := Xor(By18(x), x);
    NarrowBits(By27(y), j);
    By27Bits(y, j);
    BitOfXor(By18(x), x, 27 + j);
    By18Bits(x, 27 + j);
  }

  lemma XorShiftedIs(x: bv64)
    ensures XorShifted(x) == Narrow(By27(Xor(By18(x), x)))
  {
  }

  lemma TopBitsIs(x: bv64)
    ensures TopBits(x) == Narrow(By59(x)) && By32(By59(x)) == 0
  {
  }

  lemma TopBitsNumber(x: bv64)
    ensures Num32(TopBits(x)) == Num64(x) / Pow2(59) < 32
  {
    TopBitsIs(x);
    hide Num64, Narrow, By59, By32, Pow2, TopBits;
    NarrowNumber(By59(x));
    Places59(x);
    ShiftedNumber(x, 59);
    PlacesBelow(TopBits(x));
  }

  lemma PlacesBelow(rot: bv32)
    requires rot < 32
    ensures Num32(rot) == rot as nat < 32
  {
  }

  /** The bits of hi with those of lo above them. */
  lemma {:induction false} BitOfSum(hi: nat, lo: nat, e: nat, i: nat)
    requires hi < Pow2(e)
    ensures Bit(hi + lo * Pow2(e), i) == if i < e then Bit(hi, i) else Bit(lo, i - e)
    decreases i
  {
    if e > 0 {
      assert Pow2(e) == 2 * Pow2(e - 1);
      hide Pow2, Bit;
      HalfOfSum(hi, lo, Pow2(e - 1));
      LastBit(hi + lo * Pow2(e));
      LastBit(hi);
      if i > 0 {
        BitOfSum(hi / 2, lo, e - 1, i - 1);
        NextBit(hi + lo * Pow2(e), i);
        NextBit(hi, i);
      }
    }
  }

  lemma HalfOfSum(hi: nat, lo: nat, p: nat)
    ensures (hi + lo * (2 * p)) / 2 == hi / 2 + lo * p && (hi + lo * (2 * p)) % 2 == hi % 2
  {
    assert lo * (2 * p) == 2 * (lo * p);
  }

  /** What a rotation to the right by k places does to the bits. */
  lemma RotatedBits(v: nat, k: nat, i: nat)
    requires v < RANGE && k < 32 && i < 32
    ensures Bit(Rotation(v, k), i) == Bit(v, (i + k) % 32)
  {
    hide Bit, Pow2, Exchanged;
    Pow2Is32();
    Pow2Adds(k, 32 - k);
    var hi, lo := Parts(v, Pow2(k), Pow2(32 - k));
    RotatedParts(v, hi, lo, k, i);
  }

  lemma Parts(v: nat, a: nat, c: nat) returns (hi: nat, lo: nat)
    requires 0 < a && v < a * c
    ensures v == lo + hi * a && hi < c && lo < a && Exchanged(v, a, c) == hi + lo * c
  {
    HighPart(v, a, c);
    hi, lo := v / a, v % a;
  }

  lemma RotatedParts(v: nat, hi: nat, lo: nat, k: nat, i: nat)
    requires k < 32 && i < 32 && v == lo + hi * Pow2(k) && hi < Pow2(32 - k) && lo < Pow2(k)
    ensures Bit(hi + lo * Pow2(32 - k), i) == Bit(v, (i + k) % 32)
  {
    hide Bit, Pow2;
    var j := if i + k < 32 then i + k else i + k - 32;
    BitOfSum(hi, lo, 32 - k, i);
    BitOfSum(lo, hi, k, j);
  }

  lemma HighPart(v: nat, d: nat, e: nat)
    requires 0 < d && v < d * e
    ensures v / d < e
  {
    assert v == d * (v / d) + v % d;
    MulGrows(d, e - v / d);
    assert d * (e - v / d) == d * e - d * (v / d);
  }

  /** The rotation in numbers. */
  lemma RotationNumber(v: bv32, rot: bv32)
    requires rot < 32
    ensures Num32(rot) < 32 && Num32(RotatedRight(v, rot)) == Rotation(Num32(v), Num32(rot))
  {
    PlacesBelow(rot);
    hide RotatedRight, Pow2, Rotation;
    RotationIsTurns(v, rot);
    TurnedNumber(v, rot as nat);
  }

  lemma RotationBits(v: bv32, rot: bv32, i: nat)
    requires rot < 32 && i < 32
    ensures Num32(rot) < 32 && Bit(Num32(RotatedRight(v, rot)), i) == Bit(Num32(v), (i + Num32(rot)) % 32)
  {
    hide RotatedRight, Num32, Bit, Rotation;
    RotationNumber(v, rot);
    RotatedBits(Num32(v), Num32(rot), i);
  }

  /** Bit i of the output of state s: the top five bits say how far the xorshift is rotated to the right. */
  lemma OutputBits(s: U64, i: nat)
    requires i < 32
    ensures var j := (i + s / 0x0800_0000_0000_0000) % 32; Bit(Output(s), i) == (Bit(s, j + 27) + Bit(s, j + 45)) % 2
  {
    hide Num32, Num64, Output, OutputOf, RotatedRight, XorShifted, TopBits, Pow2, Bit;
    StateNumber(s);
    TopBitsNumber(s as bv64);
    OutputNumber(s);
    WordBits(s as bv64, i);
  }

  lemma WordBits(x: bv64, i: nat)
    requires i < 32
    ensures TopBits(x) < 32
    ensures var j := (i + Num32(TopBits(x))) % 32;
      Bit(Num32(RotatedRight(XorShifted(x), TopBits(x))), i) == (Bit(Num64(x), j + 27) + Bit(Num64(x), j + 45)) % 2
  {
    hide Num32, Num64, RotatedRight, XorShifted, TopBits, Bit;
    RotationBits(XorShifted(x), TopBits(x), i);
    XorShiftedBits(x, (i + Num32(TopBits(x))) % 32);
  }

  /** r is what pcg32_random_r answers in state s. */
  ghost predicate AnswersTo(r: U32, s: U64) {
    forall i: nat :: i < 32 ==>
      var j := (i + s / 0x0800_0000_0000_0000) % 32; Bit(r, i) == (Bit(s, j + 27) + Bit(s, j + 45)) % 2
  }

  lemma OutputAnswers(s: U64)
    ensures AnswersTo(Output(s), s)
  {
    hide Output, Bit;
    forall i: nat | i < 32
      ensures var j := (i + s / 0x0800_0000_0000_0000) % 32; Bit(Output(s), i) == (Bit(s, j + 27) + Bit(s, j + 45)) % 2
    {
      OutputBits(s, i);
    }
  }

  lemma StateNumber(s: U64)
    ensures Num64(s as bv64) == s && Pow2(59) == 0x0800_0000_0000_0000
  {
    ThereAndBack64(s);
    Pow2Is32();
    assert Pow2(5) == 32;
    Pow2Is64();
    Pow2Adds(5, 59);
  }

  lemma OutputNumber(s: U64)
    ensures Output(s) == Num32(RotatedRight(XorShifted(s as bv64), TopBits(s as bv64)))
  {
  }

  function Source(v: U32, rest: U32): U64 {
    SourceOf(v as bv32, rest as bv32) as U64
  }

  function RestOf(s: U64): U32 {
    Rest(s as bv64) as U32
  }

  lemma OutputIs(s: U64)
    ensures Output(s) == OutputOf(s as bv64) as U32
  {
  }

  lemma BackAndThere(x: bv64)
    ensures (x as int) as bv64 == x
  {
  }

  lemma SourceWords(v: bv32, rest: bv32)
    ensures Output(SourceOf(v, rest) as U64) == v as U32 && RestOf(SourceOf(v, rest) as U64) == rest as U32
  {
    hide SourceOf, Rest, OutputOf, Output;
    var x := SourceOf(v, rest);
    OutputOfSource(v, rest);
    OutputIs(x as U64);
    BackAndThere(x);
  }

  /** Output and rest together are as good as the state. */
  lemma SourceHasOutput(v: U32, rest: U32)
    ensures Output(Source(v, rest)) == v && RestOf(Source(v, rest)) == rest
  {
    hide SourceOf, RestOf, Output;
    SourceWords(v as bv32, rest as bv32);
    ThereAndBack32(v);
    ThereAndBack32(rest);
  }

  lemma SourceOfState(s: U64)
    ensures Source(Output(s), RestOf(s)) == s
  {
    hide SourceOf, Rest, OutputOf, Output;
    SourceOfOutput(s as bv64);
    OutputIs(s);
    WordBack(OutputOf(s as bv64));
    WordBack(Rest(s as bv64));
    ThereAndBack64(s);
  }

  lemma WordBack(x: bv32)
    ensures (x as int) as bv32 == x
  {
  }

  // counting

  /** The states with output v whose rest is below n. */
  ghost function Sources(v: U32, n: nat): (r: set<U64>)
    requires n <= RANGE
  {
    if n == 0 then {} else Sources(v, n - 1) + {Source(v, n - 1)}
  }

  lemma {:induction false} SourcesAre(v: U32, n: nat)
    requires n <= RANGE
    ensures |Sources(v, n)| == n
    ensures forall s: U64 :: s in Sources(v, n) <==> Output(s) == v && RestOf(s) < n
  {
    hide Output, Source, RestOf;
    if n > 0 {
      SourcesAre(v, n - 1);
      SourceHasOutput(v, n - 1);
      forall s: U64 | Output(s) == v && RestOf(s) == n - 1
        ensures s == Source(v, n - 1)
      {
        SourceOfState(s);
      }
    }
  }

  ghost function StatesWith(v: U32): set<U64> {
    set s: U64 | 0 <= s < MODULUS && Output(s) == v
  }

  /** Every output comes from exactly 2^32 of the 2^64 states. */
  lemma OutputsAreUniform(v: U32)
    ensures |StatesWith(v)| == RANGE
  {
    hide Output, RestOf;
    SourcesAre(v, RANGE);
    assert StatesWith(v) == Sources(v, RANGE);
  }

  // ---------- the period ----------

  /** n steps without wrap-around, for any multiplier. */
  function Run(n: nat, x: int, a: int, c: int): int {
    if n == 0 then x else Run(n - 1, a * x + c, a, c)
  }

  lemma {:induction false} RunTwice(n: nat, m: nat, x: int, a: int, c: int)
    ensures Run(n + m, x, a, c) == Run(m, Run(n, x, a, c), a, c)
  {
    if n > 0 {
      RunTwice(n - 1, m, a * x + c, a, c);
    }
  }

  /** 2^k steps are one affine step, whose multiplier is 1 modulo 2^(k + 2) and whose increment is an odd
      multiple of 2^k. */
  lemma {:induction false} Doubling(k: nat, a: int, c: int) returns (t: int, s: int)
    requires a % 4 == 1 && c % 2 == 1
    ensures forall x :: Run(Pow2(k), x, a, c) == (1 + 4 * Pow2(k) * t) * x + Pow2(k) * (2 * s + 1)
  {
    if k == 0 {
      t, s := a / 4, c / 2;
      forall x
        ensures Run(1, x, a, c) == (1 + 4 * t) * x + (2 * s + 1)
      {
        assert Run(1, x, a, c) == Run(0, a * x + c, a, c);
      }
    } else {
      var t0, s0 := Doubling(k - 1, a, c);
      var p := Pow2(k - 1);
      t := t0 + 2 * p * t0 * t0;
      s := s0 + 2 * p * t0 * s0 + p * t0;
      forall x
        ensures Run(Pow2(k), x, a, c) == (1 + 4 * Pow2(k) * t) * x + Pow2(k) * (2 * s + 1)
      {
        var y := (1 + 4 * p * t0) * x + p * (2 * s0 + 1);
        RunTwice(p, p, x, a, c);
        assert Run(p + p, x, a, c) == (1 + 4 * p * t0) * y + p * (2 * s0 + 1);
        Squared(p, t0, s0, x);
      }
    }
  }

  lemma Squared(p: int, t: int, s: int, x: int)
    ensures var y := (1 + 4 * p * t) * x + p * (2 * s + 1);
      (1 + 4 * p * t) * y + p * (2 * s + 1)
      == (1 + 4 * (2 * p) * (t + 2 * p * t * t)) * x + (2 * p) * (2 * (s + 2 * p * t * s + p * t) + 1)
  {
  }

  /** p * q, for the solver to leave alone. */
  function Prod(p: int, q: int): int {
    p * q
  }

  lemma ProdLaws(p: int, q: int, r: int)
    ensures Prod(p, q) + Prod(p, r) == Prod(p, q + r) && Prod(p, -q) == -Prod(p, q)
    ensures Prod(2 * p, q) == Prod(p, 2 * q)
    ensures p != 0 && q != 0 ==> Prod(p, q) != 0
  {
  }

  /** 2^k steps move a state by an odd multiple of 2^k. */
  lemma Jump(k: nat, x: int, a: int, c: int) returns (d: int)
    requires a % 4 == 1 && c % 2 == 1
    ensures Run(Pow2(k), x, a, c) == x + Prod(Pow2(k), 2 * d + 1)
  {
    var t, s := Doubling(k, a, c);
    var p := Pow2(k);
    d := 2 * t * x + s;
    assert (1 + 4 * p * t) * x + p * (2 * s + 1) == x + p * (2 * (2 * t * x + s) + 1);
  }

  /** Some n below 2^k takes x to v, up to a multiple of 2^k. */
  lemma {:induction false} Reach(k: nat, x: int, v: int, a: int, c: int) returns (n: nat, q: int)
    requires a % 4 == 1 && c % 2 == 1
    ensures n < Pow2(k) && Run(n, x, a, c) == v + Prod(Pow2(k), q)
  {
    hide Run, Prod;
    if k == 0 {
      n, q := 0, x - v;
      Unmoved(x, v, a, c);
    } else {
      var p := Pow2(k - 1);
      n, q := Reach(k - 1, x, v, a, c);
      if q % 2 == 1 {
        var d := Jump(k - 1, Run(n, x, a, c), a, c);
        RunTwice(n, p, x, a, c);
        ProdLaws(p, q, 2 * d + 1);
        n, q := n + p, q + 2 * d + 1;
      }
      q := q / 2;
      ProdLaws(p, q, 0);
    }
  }

  lemma Unmoved(x: int, v: int, a: int, c: int)
    ensures Run(0, x, a, c) == v + Prod(1, x - v)
  {
  }

  /** No two different numbers of steps below 2^k lead to states equal up to a multiple of 2^k. */
  lemma {:induction false} NeverTwice(k: nat, x: int, n: nat, m: nat, q: int, a: int, c: int)
    requires a % 4 == 1 && c % 2 == 1 && n < m < Pow2(k)
    ensures Run(m, x, a, c) != Run(n, x, a, c) + Prod(Pow2(k), q)
  {
    hide Run, Prod;
    if k > 0 && Run(m, x, a, c) == Run(n, x, a, c) + Prod(Pow2(k), q) {
      var p := Pow2(k - 1);
      ProdLaws(p, q, 0);
      if m < p {
        NeverTwice(k - 1, x, n, m, 2 * q, a, c);
      } else if n >= p {
        RunTwice(p, n - p, x, a, c);
        RunTwice(p, m - p, x, a, c);
        NeverTwice(k - 1, Run(p, x, a, c), n - p, m - p, 2 * q, a, c);
      } else {
        RunTwice(m - p, p, x, a, c);
        var d := Jump(k - 1, Run(m - p, x, a, c), a, c);
        var e := 2 * q - (2 * d + 1);
        ProdLaws(p, e, 2 * d + 1);
        if n < m - p {
          NeverTwice(k - 1, x, n, m - p, e, a, c);
        } else if m - p < n {
          NeverTwice(k - 1, x, m - p, n, -e, a, c);
        }
      }
    }
  }

  // ---------- the period of the generator ----------

  lemma {:induction false} IterateIsRun(n: nat, s: U64, inc: U64, x: int)
    requires x % MODULUS == s
    ensures Run(n, x, MULTIPLIER, inc) % MODULUS == Iterate(n, s, inc)
  {
    if n > 0 {
      StepCongruent(s, inc, x);
      IterateIsRun(n - 1, Step(s, inc), inc, MULTIPLIER * x + inc);
    }
  }

  lemma StepCongruent(s: U64, inc: U64, x: int)
    requires x % MODULUS == s
    ensures (MULTIPLIER * x + inc) % MODULUS == Step(s, inc)
  {
    var q := x / MODULUS;
    var v := MULTIPLIER * s + inc;
    assert MULTIPLIER * x + inc == MODULUS * (MULTIPLIER * q + v / MODULUS) + v % MODULUS;
    DivModUnique(MULTIPLIER * x + inc, MODULUS, MULTIPLIER * q + v / MODULUS, v % MODULUS);
  }

  lemma {:induction false} Pow2Sum(j: nat, k: nat)
    ensures Pow2(j + k) == Pow2(j) * Pow2(k)
  {
    if j > 0 {
      Pow2Sum(j - 1, k);
      DoubleProduct(Pow2(j - 1), Pow2(k));
    }
  }

  lemma DoubleProduct(p: int, q: int)
    ensures 2 * (p * q) == (2 * p) * q
  {
  }

  lemma Pow2Is64()
    ensures Pow2(64) == MODULUS
  {
    assert Pow2(1) == 2;
    hide Pow2;
    Pow2Squared(1, 2);
    Pow2Squared(2, 4);
    Pow2Squared(4, 0x10);
    Pow2Squared(8, 0x100);
    Pow2Squared(16, 0x1_0000);
    Pow2Squared(32, 0x1_0000_0000);
  }

  lemma Pow2Squared(k: nat, p: nat)
    requires Pow2(k) == p
    ensures Pow2(2 * k) == p * p
  {
    Pow2Sum(k, k);
  }

  /** Every state is reached from every state, in fewer than 2^64 steps. */
  lemma FullPeriod(s: U64, v: U64, inc: U64) returns (n: nat)
    requires inc % 2 == 1
    ensures n < MODULUS && Iterate(n, s, inc) == v
  {
    var q;
    n, q := Reach(64, s, v, MULTIPLIER, inc);
    Pow2Is64();
    IterateIsRun(n, s, inc, s);
    DivModUnique(v + MODULUS * q, MODULUS, q, v);
  }

  /** And by no other number of steps below 2^64: the generator runs through all states before it repeats one. */
  lemma OnlyOnce(s: U64, inc: U64, n: nat, m: nat)
    requires inc % 2 == 1 && n < m < MODULUS
    ensures Iterate(n, s, inc) != Iterate(m, s, inc)
  {
    hide Run, Iterate, Prod, Pow2;
    var a, b := Run(n, s, MULTIPLIER, inc), Run(m, s, MULTIPLIER, inc);
    Pow2Is64();
    IterateIsRun(n, s, inc, s);
    IterateIsRun(m, s, inc, s);
    NeverTwice(64, s, n, m, b / MODULUS - a / MODULUS, MULTIPLIER, inc);
    MultipleApart(a, b);
  }

  lemma MultipleApart(a: int, b: int)
    ensures a % MODULUS == b % MODULUS ==> b == a + Prod(MODULUS, b / MODULUS - a / MODULUS)
  {
  }

  // ---------- the bounded generator ----------

  /** How many r with lo <= r < hi leave remainder d. */
  function Hits(lo: nat, hi: nat, bound: nat, d: nat): nat
    requires bound > 0
    decreases hi - lo
  {
    if lo >= hi then 0 else Hits(lo + 1, hi, bound, d) + if lo % bound == d then 1 else 0
  }

  lemma {:induction false} HitsJoin(lo: nat, mid: nat, hi: nat, bound: nat, d: nat)
    requires bound > 0 && lo <= mid <= hi
    ensures Hits(lo, hi, bound, d) == Hits(lo, mid, bound, d) + Hits(mid, hi, bound, d)
    decreases mid - lo
  {
    if lo < mid {
      HitsJoin(lo + 1, mid, hi, bound, d);
    }
  }

  /** Inside one block of bound numbers, remainder d comes up once, at d. */
  lemma {:induction false} HitsInBlock(k: nat, r: nat, e: nat, bound: nat, d: nat)
    requires d < bound && r <= e <= bound
    ensures Hits(bound * k + r, bound * k + e, bound, d) == if r <= d < e then 1 else 0
    decreases e - r
  {
    if r < e {
      HitsInBlock(k, r + 1, e, bound, d);
      DivModUnique(bound * k + r, bound, k, r);
    }
  }

  lemma OneBlockMore(k: nat, n: nat, bound: nat)
    requires n > 0
    ensures bound * (k + 1) == bound * k + bound && bound * (k + 1) + bound * (n - 1) == bound * k + bound * n
  {
    assert bound * (n - 1) == bound * n - bound;
  }

  lemma {:induction false} HitsInBlocks(k: nat, n: nat, bound: nat, d: nat)
    requires d < bound
    ensures Hits(bound * k, bound * k + bound * n, bound, d) == n
    decreases n
  {
    if n > 0 {
      HitsInBlock(k, 0, bound, bound, d);
      HitsInBlocks(k + 1, n - 1, bound, d);
      hide Hits;
      OneBlockMore(k, n, bound);
      HitsJoin(bound * k, bound * k + bound, bound * k + bound * n, bound, d);
    }
  }

  /** Of the outputs that are not dropped, equally many give each result. */
  lemma AcceptedIsUniform(bound: nat, d: nat)
    requires d < bound
    ensures Hits(RANGE % bound, RANGE, bound, d) == RANGE / bound
  {
    var t, n := RANGE % bound, RANGE / bound;
    assert bound * n + t == RANGE;
    HitsInBlocks(0, n, bound, d);
    HitsInBlock(0, 0, t, bound, d);
    HitsInBlock(n, 0, t, bound, d);
    HitsJoin(0, t, RANGE, bound, d);
    HitsJoin(0, bound * n, RANGE, bound, d);
  }

  /** The states whose output lies between lo and hi and leaves remainder d. */
  ghost function StatesHitting(lo: nat, hi: nat, bound: nat, d: nat): set<U64>
    requires bound > 0
  {
    set s: U64 | 0 <= s < MODULUS && lo <= Output(s) < hi && Output(s) % bound == d
  }

  lemma {:induction false} StatesCount(lo: nat, hi: nat, bound: nat, d: nat)
    requires bound > 0 && lo <= hi <= RANGE
    ensures |StatesHitting(lo, hi, bound, d)| == RANGE * Hits(lo, hi, bound, d)
    decreases hi - lo
  {
    hide Output;
    if lo < hi {
      StatesCount(lo + 1, hi, bound, d);
      if lo % bound == d {
        OutputsAreUniform(lo);
        assert StatesHitting(lo, hi, bound, d) == StatesHitting(lo + 1, hi, bound, d) + StatesWith(lo);
      } else {
        assert StatesHitting(lo, hi, bound, d) == StatesHitting(lo + 1, hi, bound, d);
      }
    } else {
      assert StatesHitting(lo, hi, bound, d) == {};
    }
  }

  /** Over the states, and so over a period, each result of the bounded generator is accepted equally often. */
  lemma BoundedIsUniform(bound: nat, d: nat)
    requires d < bound
    ensures |StatesHitting(RANGE % bound, RANGE, bound, d)| == RANGE * (RANGE / bound)
  {
    StatesCount(RANGE % bound, RANGE, bound, d);
    AcceptedIsUniform(bound, d);
  }

  /** -bound % bound in 32 bits is the remainder of 2^32. */
  lemma ThresholdIsRemainder(bound: U32)
    requires 0 < bound
    ensures (RANGE - bound) % bound == RANGE % bound < bound
  {
    DivModUnique(RANGE - bound, bound, RANGE / bound - 1, RANGE % bound);
  }

  /** Two seeds of the same sequence start in different states. */
  lemma {:induction false} StepIsInjective(s: U64, u: U64, inc: U64)
    requires inc % 2 == 1 && Step(s, inc) == Step(u, inc)
    ensures s == u
  {
    if s != u {
      var n := FullPeriod(s, u, inc);
      IterateLast(n - 1, Step(s, inc), inc);
      OnlyOnce(Step(s, inc), inc, 0, n);
    }
  }

  lemma {:induction false} IterateLast(n: nat, s: U64, inc: U64)
    ensures Iterate(n + 1, s, inc) == Step(Iterate(n, s, inc), inc)
  {
    if n > 0 {
      IterateLast(n - 1, Step(s, inc), inc);
    }
  }

  lemma OddIncrement(n: U64)
    ensures var inc := (2 * n) % MODULUS + 1; inc < MODULUS && inc % 2 == 1 && inc / 2 == n % (MODULUS / 2)
  {
  }

  class Rng {
    var state: U64
    var inc: U64

    /** Seeds the generator: the stream number makes the increment odd. */
    constructor (initstate: U64, initseq: U64)
      ensures inc % 2 == 1 && inc / 2 == initseq % (MODULUS / 2)
      ensures state == Step((Step(0, inc) + initstate) % MODULUS, inc)
    {
      hide Step, Output;
      OddIncrement(initseq);
      state := 0;
      inc := (2 * initseq) % MODULUS + 1;
      new;
      var _ := Random();
      state := (state + initstate) % MODULUS;
      var _ := Random();
    }

    method Random() returns (r: U32)
      modifies `state
      ensures r == Output(old(state)) && state == Step(old(state), inc)
      ensures state == (old(state) * 6364136223846793005 + inc) % 0x1_0000_0000_0000_0000
      ensures AnswersTo(r, old(state))
    {
      hide Output, AnswersTo;
      OutputAnswers(state);
      var oldstate := state;
      state := (oldstate * MULTIPLIER + inc) % MODULUS;
      r := Output(oldstate);
    }

    /** Draws until an output reaches the threshold; some output does, because some state gives the largest. */
    method BoundedRandom(bound: U32) returns (r: U32, ghost k: nat)
      requires inc % 2 == 1 && 0 < bound
      modifies `state
      ensures 0x1_0000_0000 % bound <= Output(Iterate(k, old(state), inc))
      ensures forall j: nat :: j < k ==> Output(Iterate(j, old(state), inc)) < 0x1_0000_0000 % bound
      ensures r == Output(Iterate(k, old(state), inc)) % bound < bound
      ensures state == Iterate(k + 1, old(state), inc)
    {
      hide Output, Step, AnswersTo;
      var threshold := (RANGE - bound) % bound;
      ThresholdIsRemainder(bound);
      WitnessOutput();
      k := 0;
      ghost var n := FullPeriod(state, WITNESS, inc);
      while true
        invariant state == Iterate(k, old(state), inc)
        invariant Iterate(n, state, inc) == WITNESS
        invariant forall j: nat :: j < k ==> Output(Iterate(j, old(state), inc)) < threshold
        decreases n
      {
        var v := Random();
        IterateLast(k, old(state), inc);
        if v >= threshold {
          r := v % bound;
          return;
        }
        k, n := k + 1, n - 1;
      }
    }
  }
}
