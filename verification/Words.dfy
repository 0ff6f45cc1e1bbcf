/**
  Fixed-width counters and power-of-two ring indexing.

  The driver keeps free-running 16-bit counters and turns them into ring slots
  with `counter & (depth - 1)`; the phase bit flips every time the slot wraps to
  zero. This module relates that arithmetic to one unbounded counter. It also
  holds what every module shares.
 */
module Words {
  datatype Option<+T> = None | Some(value: T)

  const U16: nat := 0x1_0000
  const U32: nat := 0x1_0000_0000

  function Pow2(k: nat): (r: nat)
    ensures r >= 1
  {
    if k == 0 then 1 else 2 * Pow2(k - 1)
  }

  /** Bitwise conjunction of two naturals, bit by bit. */
  function BitAnd(a: nat, b: nat): nat {
    if a == 0 || b == 0 then 0 else 2 * BitAnd(a / 2, b / 2) + (a % 2) * (b % 2)
  }

  /** A ring depth: a power of two that a 16-bit field can hold. */
  predicate IsDepth(q: nat) {
    exists k: nat | k <= 15 :: q == Pow2(k)
  }

  /** `x & (q - 1)`, as every ring index of the driver is computed. */
  function Masked(x: nat, q: nat): nat
    requires q > 0
  {
    BitAnd(x, q - 1)
  }

  function DivRoundUp(a: nat, b: nat): nat
    requires b > 0
  {
    (a + b - 1) / b
  }

  /** The ring slot of the n-th element ever put on a ring of depth q. */
  function Slot(q: nat, n: nat): (s: nat)
    requires q > 0
    ensures s < q
  {
    if n == 0 then 0 else if Slot(q, n - 1) + 1 == q then 0 else Slot(q, n - 1) + 1
  }

  /** The phase bit of the n-th element: 1 on the first lap, flipped on every wrap. */
  function Phase(q: nat, n: nat): (p: nat)
    requires q > 0
    ensures p <= 1
  {
    if n == 0 then 1 else if Slot(q, n) == 0 then 1 - Phase(q, n - 1) else Phase(q, n - 1)
  }

  lemma MulBounds(d: nat, y: int)
    ensures y >= 1 ==> d * y >= d
    ensures y <= -1 ==> d * y + d <= 0
  {
  }

  lemma MulAssoc(a: nat, b: nat, c: nat)
    ensures (a * b) * c == a * (b * c)
  {
  }

  lemma MulAdds(d: nat, x: int, y: int)
    ensures d * (x + y) == d * x + d * y
    ensures d * (x - y) == d * x - d * y
  {
  }

  lemma DivMod(x: nat, d: nat)
    requires d > 0
    ensures x == d * (x / d) + x % d && 0 <= x % d < d && 0 <= x / d
  {
  }

  lemma DivModUnique(x: nat, d: nat, c: nat, r: nat)
    requires r < d && x == d * c + r
    ensures x / d == c && x % d == r
  {
    var k, l := x / d, x % d;
    DivMod(x, d);
    MulAdds(d, k, c);
    MulBounds(d, k - c);
  }

  lemma DoubleMod(x: nat, p: nat)
    requires p > 0
    ensures x % (2 * p) == 2 * ((x / 2) % p) + x % 2
  {
    var c, r := (x / 2) / p, (x / 2) % p;
    DivMod(x / 2, p);
    MulAssoc(2, p, c);
    DivModUnique(x, 2 * p, c, 2 * r + x % 2);
  }

  lemma BitAndOdd(x: nat, p: nat)
    requires p > 0
    ensures BitAnd(x, 2 * p - 1) == 2 * BitAnd(x / 2, p - 1) + x % 2
  {
    assert (2 * p - 1) / 2 == p - 1 && (2 * p - 1) % 2 == 1;
  }

  lemma {:induction false} MaskIsMod(x: nat, k: nat)
    ensures BitAnd(x, Pow2(k) - 1) == x % Pow2(k)
  {
    if k > 0 {
      var p := Pow2(k - 1);
      BitAndOdd(x, p);
      MaskIsMod(x / 2, k - 1);
      DoubleMod(x, p);
      assert Pow2(k) == 2 * p;
    }
  }

  /** Masking with `depth - 1` is the remainder by the depth. */
  lemma MaskedIsMod(x: nat, q: nat)
    requires IsDepth(q)
    ensures q > 0 && Masked(x, q) == x % q < q
  {
    var k: nat :| k <= 15 && q == Pow2(k);
    MaskIsMod(x, k);
  }

  lemma {:induction false} Pow2Splits(a: nat, b: nat)
    ensures Pow2(a + b) == Pow2(a) * Pow2(b)
  {
    if a > 0 {
      Pow2Splits(a - 1, b);
      MulAssoc(2, Pow2(a - 1), Pow2(b));
    }
  }

  lemma Pow2Of16()
    ensures Pow2(16) == U16
  {
    assert Pow2(4) == 16;
    Pow2Splits(4, 4);
    Pow2Splits(8, 8);
  }

  /** A depth divides the range of a 16-bit counter, so wrapping the counter never moves the slot. */
  lemma DepthDividesU16(q: nat) returns (m: nat)
    requires IsDepth(q)
    ensures q > 0 && q * m == U16 && m >= 2
  {
    var k: nat :| k <= 15 && q == Pow2(k);
    m := Pow2(16 - k);
    Pow2Splits(k, 16 - k);
    Pow2Of16();
    assert m == 2 * Pow2(15 - k);
  }

  lemma NextIs(q: nat, n: nat)
    requires q > 0 && n > 0
    ensures Slot(q, n) == if Slot(q, n - 1) + 1 == q then 0 else Slot(q, n - 1) + 1
  {
  }

  lemma {:induction false} SlotIsMod(q: nat, n: nat)
    requires q > 0
    ensures Slot(q, n) == n % q
  {
    if n == 0 {
      DivModUnique(0, q, 0, 0);
    } else {
      SlotIsMod(q, n - 1);
      hide Slot;
      var c, r := (n - 1) / q, (n - 1) % q;
      DivMod(n - 1, q);
      NextIs(q, n);
      if r + 1 == q {
        MulAdds(q, c, 1);
        DivModUnique(n, q, c + 1, 0);
      } else {
        DivModUnique(n, q, c, r + 1);
      }
    }
  }

  lemma ModOfMod(n: nat, q: nat, m: nat)
    requires q > 0 && m > 0
    ensures q * m > 0 && (n % (q * m)) % q == n % q
  {
    MulBounds(q, m);
    var u := q * m;
    var a, b := n / u, n % u;
    DivMod(n, u);
    MulAssoc(q, m, a);
    AddMultiple(b, q, m * a);
  }

  /** The masked 16-bit counter is the slot of the unbounded one, over any number of wraps. */
  lemma CounterSlot(q: nat, n: nat)
    requires IsDepth(q)
    ensures q > 0 && Masked(n % U16, q) == Slot(q, n)
  {
    var m := DepthDividesU16(q);
    MaskedIsMod(n % U16, q);
    SlotIsMod(q, n);
    ModOfMod(n, q, m);
  }

  /** Fewer than one lap apart, two elements never share a slot. */
  lemma SlotsDistinct(q: nat, a: nat, b: nat)
    requires q > 0 && a < b < a + q
    ensures Slot(q, a) != Slot(q, b)
  {
    SlotIsMod(q, a);
    SlotIsMod(q, b);
    hide Slot;
    var k, l := a / q, b / q;
    DivMod(a, q);
    DivMod(b, q);
    MulAdds(q, l, k);
    MulBounds(q, l - k);
  }

  /** Nothing else within a lap has the slot of element m. */
  lemma OtherSlots(q: nat, m: nat)
    requires q > 0
    ensures forall n: nat {:trigger Slot(q, n)} :: (m < n < m + q || n < m < n + q) ==> Slot(q, n) != Slot(q, m)
  {
    forall n: nat {:trigger Slot(q, n)} | m < n < m + q || n < m < n + q ensures Slot(q, n) != Slot(q, m) {
      SlotsDistinct(q, if m < n then m else n, if m < n then n else m);
    }
  }

  /** One lap on: same slot, opposite phase. */
  lemma {:induction false} LapFlipsPhase(q: nat, n: nat)
    requires q > 0
    ensures Slot(q, n + q) == Slot(q, n)
    ensures Phase(q, n + q) == 1 - Phase(q, n)
  {
    if n == 0 {
      FirstLap(q, q - 1);
    } else {
      LapFlipsPhase(q, n - 1);
    }
  }

  /** The first lap visits the slots in order with phase 1. */
  lemma {:induction false} FirstLap(q: nat, n: nat)
    requires n < q
    ensures Slot(q, n) == n && Phase(q, n) == 1
  {
    if n > 0 {
      FirstLap(q, n - 1);
    }
  }

  /** The difference of two 16-bit counters is exact while the true distance fits 16 bits. */
  lemma CounterDistance(hi: nat, lo: nat)
    requires lo <= hi < lo + U16
    ensures (hi % U16 - lo % U16) % U16 == hi - lo
  {
  }

  /** Storing a possibly negative number as an unsigned 32-bit one keeps its low 16 bits. */
  lemma UnsignedKeepsLow16(x: int)
    ensures (x % U32) % U16 == x % U16
  {
  }

  lemma AddWraps(n: nat, k: int)
    requires n + k >= 0
    ensures (n % U16 + k) % U16 == (n + k) % U16
  {
  }

  lemma AddLow16(a: nat, x: nat, b: nat, y: nat)
    requires a % U16 == x % U16 && b % U16 == y % U16
    ensures ((a + b) % U32) % U16 == (x + y) % U16
  {
    UnsignedKeepsLow16(a + b);
    AddLowParts(a, b);
    AddLowParts(x, y);
  }

  lemma AddLowParts(a: nat, b: nat)
    ensures (a + b) % U16 == (a % U16 + b % U16) % U16
  {
    AddWraps(a, b);
    AddWraps(b, a % U16);
  }

  lemma PhaseStep(q: nat, n: nat)
    requires q > 0
    ensures Phase(q, n + 1) == if Slot(q, n + 1) == 0 then 1 - Phase(q, n) else Phase(q, n)
  {
  }

  /** One increment of a 16-bit counter: the next slot, and a phase flip exactly on wrapping to slot 0. */
  lemma CounterStep(q: nat, n: nat)
    requires IsDepth(q)
    ensures q > 0 && (n % U16 + 1) % U16 == (n + 1) % U16
    ensures Masked((n + 1) % U16, q) == Slot(q, n + 1)
    ensures Phase(q, n + 1) == if Slot(q, n + 1) == 0 then 1 - Phase(q, n) else Phase(q, n)
  {
    hide Slot, Phase, Masked;
    AddWraps(n, 1);
    CounterSlot(q, n + 1);
    PhaseStep(q, n);
  }

  /** A difference of 16-bit counters, taken as a signed number, is right modulo 2^16. */
  lemma CounterDifference(hi: nat, lo: nat)
    requires lo <= hi
    ensures (hi % U16 - lo % U16) % U16 == (hi - lo) % U16
  {
  }

  lemma DepthBound(q: nat)
    requires IsDepth(q)
    ensures 1 <= q <= 0x8000
  {
    var m := DepthDividesU16(q);
    MulBounds(q, m - 1);
    MulAdds(q, m, 1);
  }

  /** The largest depth a ring can have. */
  lemma LargestDepth()
    ensures IsDepth(0x8000)
  {
    assert Pow2(8) == 0x100;
    assert Pow2(15) == 0x8000;
  }

  lemma AddMultiple(x: nat, q: nat, c: nat)
    requires q > 0
    ensures (x + q * c) % q == x % q
  {
    var k, r := x / q, x % q;
    DivMod(x, q);
    MulAdds(q, k, c);
    DivModUnique(x + q * c, q, k + c, r);
  }

  /** Indexing on from a slot: i elements further, wrapped by the mask. */
  lemma {:induction false} SlotPlus(q: nat, n: nat, i: nat)
    requires IsDepth(q) && i < q
    ensures q > 0 && Masked((Slot(q, n) + i) % U16, q) == Slot(q, n + i)
  {
    hide Slot, Masked, IsDepth;
    DepthBound(q);
    var s := Slot(q, n);
    Below16(s + i);
    MaskedIsMod(s + i, q);
    SlotIsMod(q, n);
    SlotIsMod(q, n + i);
    DivMod(n, q);
    AddMultiple(n % q + i, q, n / q);
  }

  lemma Below16(n: nat)
    requires n < U16
    ensures n % U16 == n
  {
  }

  /** The ring index macros: one slot on, wrapped by the mask. */
  lemma {:induction false} NextSlot(q: nat, n: nat)
    requires IsDepth(q)
    ensures q > 0 && Masked(Slot(q, n) + 1, q) == Slot(q, n + 1)
  {
    DepthBound(q);
    MaskedIsMod(Slot(q, n) + 1, q);
    if Slot(q, n) + 1 == q {
      DivModUnique(q, q, 1, 0);
    } else {
      DivModUnique(Slot(q, n) + 1, q, 0, Slot(q, n) + 1);
    }
  }

  lemma AppendAssoc<T>(a: seq<T>, b: seq<T>, c: seq<T>)
    ensures a + b + c == a + (b + c)
  {
  }
}
