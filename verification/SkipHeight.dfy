/** The heights that skip pointers lead to, and how many steps a walk along them takes (src/chain.cpp:74-113). */
module SkipHeights {
  import opened Integers

  // ---------- the skip height ----------

  /** The bitwise and of two non-negative numbers. */
  ghost function BitAnd(a: nat, b: nat): nat {
    if a == 0 || b == 0 then 0
    else 2 * BitAnd(a / 2, b / 2) + if a % 2 == 1 && b % 2 == 1 then 1 else 0
  }

  /** Turns the lowest one bit into a zero. */
  function InvertLowestOne(n: nat): (r: nat)
    ensures r <= n && (n > 0 ==> r < n)
  {
    if n == 0 then 0 else if n % 2 == 1 then n - 1 else 2 * InvertLowestOne(n / 2)
  }

  ghost predicate Even(n: int) {
    n % 2 == 0
  }

  lemma EvenSum(a: int, b: int)
    requires Even(a) && Even(b)
    ensures Even(a + b) && Even(a - b)
  {
  }

  lemma EvenTwice(n: int, h: int)
    requires n == 2 * h
    ensures Even(n)
  {
  }

  lemma InvertOfEven(n: nat)
    requires Even(n)
    ensures Even(InvertLowestOne(n)) && (if n == 0 then InvertLowestOne(n) == 0 else InvertLowestOne(n) <= n - 2)
  {
  }

  /** It is n & (n - 1). */
  lemma {:induction false} InvertIsAnd(n: nat)
    ensures n > 0 ==> InvertLowestOne(n) == BitAnd(n, n - 1)
  {
    if n > 0 {
      if n % 2 == 1 {
        AndSelf(n / 2);
        assert (n - 1) / 2 == n / 2;
      } else {
        InvertIsAnd(n / 2);
        assert (n - 1) / 2 == n / 2 - 1;
      }
    }
  }

  lemma {:induction false} AndSelf(n: nat)
    ensures BitAnd(n, n) == n
  {
    if n > 0 {
      AndSelf(n / 2);
    }
  }

  /** The height to jump back to. */
  function GetSkipHeight(height: int): (r: int)
    ensures 0 <= r && (height > 0 ==> r < height)
  {
    if height < 2 then 0
    else if height % 2 == 1 then InvertLowestOne(InvertLowestOne(height - 1)) + 1
    else InvertLowestOne(height)
  }

  // ---------- one bits ----------

  ghost function Ones(n: nat): nat {
    if n == 0 then 0 else Ones(n / 2) + n % 2
  }

  lemma {:induction false} OnesInvert(n: nat)
    requires n > 0
    ensures Ones(InvertLowestOne(n)) == Ones(n) - 1
  {
    if n % 2 == 0 {
      OnesInvert(n / 2);
    }
  }

  lemma {:induction false} OnesBound(n: nat, e: nat)
    requires n < Pow2(e)
    ensures Ones(n) <= e
  {
    if n > 0 {
      OnesBound(n / 2, e - 1);
    }
  }

  /** The lowest one bit of a sum is that of its lower part. */
  lemma {:induction false} InvertSum(q: nat, r: nat, e: nat)
    requires 0 < r < Pow2(e)
    ensures InvertLowestOne(Pow2(e) * q + r) == Pow2(e) * q + InvertLowestOne(r)
  {
    Pow2Next(e - 1);
    var half := Pow2(e - 1) * q;
    assert Pow2(e) * q == 2 * half by {
      Twice(Pow2(e - 1), q);
    }
    if r % 2 == 0 {
      InvertSum(q, r / 2, e - 1);
      assert (2 * half + r) / 2 == half + r / 2;
    }
  }

  lemma Twice(x: int, q: int)
    ensures 2 * x * q == 2 * (x * q)
  {
  }

  lemma OnesOdd(r: nat)
    requires r > 0 && Even(r - 1)
    ensures Ones(r) == Ones(r - 1) + 1
  {
    assert (r - 1) / 2 == r / 2;
  }

  lemma OnesDouble(n: nat, h: nat)
    requires n == 2 * h
    ensures Ones(n) == Ones(h)
  {
    assert n / 2 == h;
  }

  lemma InvertDouble(n: nat, h: nat)
    requires n == 2 * h
    ensures InvertLowestOne(n) == 2 * InvertLowestOne(h)
  {
    assert n / 2 == h;
  }

  lemma InvertTwo(j: nat)
    ensures InvertLowestOne(4 * j + 2) == 4 * j
  {
    assert InvertLowestOne(2 * j + 1) == 2 * j;
    InvertDouble(4 * j + 2, 2 * j + 1);
  }

  lemma InvertFour(j: nat)
    ensures InvertLowestOne(8 * j + 4) == 8 * j
  {
    hide InvertLowestOne;
    InvertDouble(8 * j + 4, 4 * j + 2);
    InvertTwo(j);
  }

  lemma InvertEight(k: nat)
    ensures InvertLowestOne(8 * k) == 8 * InvertLowestOne(k)
  {
    hide InvertLowestOne;
    InvertDouble(8 * k, 4 * k);
    InvertDouble(4 * k, 2 * k);
    InvertDouble(2 * k, k);
  }

  // ---------- the walk ----------

  /** The height after one step of GetAncestor, if all skip pointers are set. */
  function Next(w: int, t: int): (n: int)
    requires 0 <= t < w
    ensures t <= n < w
  {
    var s, sp := GetSkipHeight(w), GetSkipHeight(w - 1);
    if s == t || (s > t && !(sp < s - 2 && sp >= t)) then s else w - 1
  }

  ghost function Steps(w: int, t: int): nat
    requires 0 <= t <= w
    decreases w
  {
    if w == t then 0 else 1 + Steps(Next(w, t), t)
  }

  lemma FirstStep(w: int, t: int)
    requires 0 <= t < w
    ensures Steps(w, t) == 1 + Steps(Next(w, t), t)
  {
  }

  /** After stepping down from an even height for the sake of the next skip pointer, that pointer is taken. */
  lemma StepThenJump(w: int, t: int)
    requires 0 <= t && w >= 4 && Even(w) && GetSkipHeight(w - 1) >= t
    ensures t < w - 1 && Next(w - 1, t) == GetSkipHeight(w - 1)
  {
    var z := InvertLowestOne(w - 2);
    assert GetSkipHeight(w - 1) == InvertLowestOne(z) + 1 && GetSkipHeight(w - 2) == z;
  }

  // ---------- skip heights in the upper half of a block ----------

  /** An aligned block of 2^(e + 1) heights starts at low, and its upper half at m. */
  ghost predicate Halves(low: nat, m: nat, e: nat, q: nat) {
    e >= 1 && low == Pow2(e + 1) * q && m == low + Pow2(e)
  }

  lemma HalvesEven(low: nat, m: nat, e: nat, q: nat)
    requires Halves(low, m, e, q)
    ensures e >= 1 && m >= low + 2 && Even(m) && Even(low) && m == low + Pow2(e)
  {
    Pow2Next(e - 1);
    Pow2Next(e);
    Twice(Pow2(e), q);
  }

  lemma InvertAbove(low: nat, m: nat, e: nat, q: nat, r: nat)
    requires Halves(low, m, e, q) && r < Pow2(e)
    ensures InvertLowestOne(m + r) == if r == 0 then low else m + InvertLowestOne(r)
  {
    Pow2Next(e);
    if r == 0 {
      InvertSum(q, Pow2(e), e + 1);
      InvertPow2(e);
    } else {
      Twice(Pow2(e), q);
      Double(Pow2(e), q);
      OneMore(Pow2(e), 2 * q);
      InvertSum(2 * q + 1, r, e);
    }
  }

  lemma {:induction false} InvertPow2(e: nat)
    ensures InvertLowestOne(Pow2(e)) == 0
  {
    if e > 0 {
      InvertPow2(e - 1);
      InvertDouble(Pow2(e), Pow2(e - 1));
    }
  }

  lemma Double(x: int, q: int)
    ensures 2 * (x * q) == x * (2 * q)
  {
  }

  lemma OneMore(x: int, q: int)
    ensures x * (q + 1) == x * q + x
  {
  }

  /** From an even position, the lowest one bit of the position is cleared; from the start of the half, the block starts. */
  lemma SkipEven(low: nat, m: nat, e: nat, q: nat, r: nat)
    requires Halves(low, m, e, q) && r < Pow2(e) && Even(r)
    ensures GetSkipHeight(m + r) == if r == 0 then low else m + InvertLowestOne(r)
  {
    hide Halves, Pow2, InvertLowestOne;
    HalvesEven(low, m, e, q);
    InvertAbove(low, m, e, q, r);
  }

  /** From an odd position, two one bits are cleared; without two of them in the position, the jump leads to the start of the block, or below it. */
  lemma SkipOdd(low: nat, m: nat, e: nat, q: nat, x: nat)
    requires Halves(low, m, e, q) && x < Pow2(e) && Even(x)
    ensures var s, y := GetSkipHeight(m + x + 1), InvertLowestOne(x);
            && (x > 0 && y > 0 ==> s == m + InvertLowestOne(y) + 1)
            && (x > 0 && y == 0 ==> s == low + 1)
            && (x == 0 ==> s < low || s == low + 1)
  {
    hide Halves, Pow2, InvertLowestOne, GetSkipHeight;
    HalvesEven(low, m, e, q);
    OddSkip(m + x);
    InvertAbove(low, m, e, q, x);
    if x > 0 {
      InvertAbove(low, m, e, q, InvertLowestOne(x));
    } else {
      InvertOfEven(low);
    }
  }

  lemma OddSkip(h: nat)
    requires h >= 2 && Even(h)
    ensures GetSkipHeight(h + 1) == InvertLowestOne(InvertLowestOne(h)) + 1
  {
    hide InvertLowestOne;
  }


  // ---------- leaving the upper half ----------

  /** What is left when the lower half is entered at its end; the start of the block is reached at once. */
  ghost function Rest(low: nat, m: nat, t: int): nat
    requires low <= t < m
  {
    if t > low then Steps(m - 1, t) else 0
  }

  lemma FromStart(low: nat, m: nat, e: nat, q: nat, t: int)
    requires Halves(low, m, e, q) && low <= t < m
    ensures Steps(m, t) == 1 + Rest(low, m, t)
  {
    hide Halves, Pow2;
    HalvesEven(low, m, e, q);
    SkipEven(low, m, e, q, 0);
    FirstStep(m, t);
  }

  lemma NearLow(low: nat, t: int)
    requires Even(low) && low <= t <= low + 1
    ensures Steps(low + 1, t) <= 1
  {
    if t == low {
      assert Next(low + 1, low) == low;
    }
  }

  /** A position with a single one bit leads to the start of the half, unless the target is near the start of the block. */
  lemma OneBit(low: nat, m: nat, e: nat, q: nat, x: nat, t: int)
    requires Halves(low, m, e, q) && 0 < x < Pow2(e) && Even(x) && InvertLowestOne(x) == 0 && low + 1 < t < m
    ensures Next(m + x, t) == m
  {
    hide Halves, Pow2, InvertLowestOne;
    HalvesEven(low, m, e, q);
    SkipEven(low, m, e, q, x);
    SkipOdd(low, m, e, q, x - 2);
  }

  /** From an odd position, a step for every two one bits, and two more, lead to the end of the lower half. */
  lemma {:induction false} FromOdd(low: nat, m: nat, e: nat, q: nat, r: nat, t: int)
    requires Halves(low, m, e, q) && 0 < r < Pow2(e) && Even(r - 1) && low <= t < m
    ensures Steps(m + r, t) <= Ones(r) / 2 + 2 + Rest(low, m, t)
    decreases r
  {
    hide Halves, Pow2, InvertLowestOne, Ones, Rest, Steps;
    HalvesEven(low, m, e, q);
    var x := r - 1;
    var y := InvertLowestOne(x);
    OnesOdd(r);
    SkipOdd(low, m, e, q, x);
    SkipEven(low, m, e, q, x);
    FirstStep(m + r, t);
    if x > 0 && y > 0 {
      var r' := InvertLowestOne(y) + 1;
      OnesInvert(x);
      OnesInvert(y);
      InvertOfEven(x);
      InvertOfEven(y);
      OnesOdd(r');
      assert Next(m + r, t) == m + r';
      FromOdd(low, m, e, q, r', t);
    } else {
      FewBits(low, m, e, q, r, t);
    }
  }

  lemma FewBits(low: nat, m: nat, e: nat, q: nat, r: nat, t: int)
    requires Halves(low, m, e, q) && 0 < r < Pow2(e) && Even(r - 1) && low <= t < m && InvertLowestOne(r - 1) == 0
    ensures Steps(m + r, t) <= (if r == 1 then 2 else 3) + Rest(low, m, t)
    ensures r > 1 ==> Ones(r) >= 2
    ensures r > 1 && t == low + 1 ==> Steps(m + r, t) == 1
  {
    hide Halves, Pow2, InvertLowestOne, Ones, Rest, Steps, GetSkipHeight;
    HalvesEven(low, m, e, q);
    var x := r - 1;
    SkipOdd(low, m, e, q, x);
    SkipEven(low, m, e, q, x);
    FirstStep(m + r, t);
    FromStart(low, m, e, q, t);
    NoSteps(t);
    if t <= low + 1 {
      NearLow(low, t);
    }
    if x > 0 {
      OnesOdd(r);
      OnesInvert(x);
      if t > low + 1 {
        OneBit(low, m, e, q, x, t);
        FirstStep(m + x, t);
      }
    }
  }

  lemma NoSteps(t: int)
    requires t >= 0
    ensures Steps(t, t) == 0
  {
  }

  /** From a multiple of eight, one bit after the other is cleared. */
  lemma {:induction false} FromEighth(low: nat, m: nat, e: nat, q: nat, k: nat, t: int)
    requires Halves(low, m, e, q) && 8 * k < Pow2(e) && low <= t < m
    ensures Steps(m + 8 * k, t) <= Ones(8 * k) + 1 + Rest(low, m, t)
    decreases k
  {
    hide *;
    if k == 0 {
      FromStart(low, m, e, q, t);
    } else {
      EighthNext(low, m, e, q, k, t);
      FirstStep(m + 8 * k, t);
      OnesInvert(8 * k);
      InvertEight(k);
      FromEighth(low, m, e, q, InvertLowestOne(k), t);
    }
  }

  lemma EighthNext(low: nat, m: nat, e: nat, q: nat, k: nat, t: int)
    requires Halves(low, m, e, q) && 0 < 8 * k < Pow2(e) && low <= t < m
    ensures Next(m + 8 * k, t) == m + InvertLowestOne(8 * k)
  {
    EighthSkips(low, m, e, q, k);
    hide GetSkipHeight, Halves, Pow2, InvertLowestOne;
    InvertEight(k);
  }

  lemma EighthSkips(low: nat, m: nat, e: nat, q: nat, k: nat)
    requires Halves(low, m, e, q) && 0 < 8 * k < Pow2(e)
    ensures GetSkipHeight(m + 8 * k) == m + InvertLowestOne(8 * k) && GetSkipHeight(m + 8 * k - 1) == m + 8 * k - 7
  {
    hide *;
    var x := 8 * k - 2;
    EvenTwice(8 * k, 4 * k);
    EvenTwice(x, 4 * k - 1);
    InvertTwo(2 * k - 1);
    InvertFour(k - 1);
    SkipEven(low, m, e, q, 8 * k);
    SkipOdd(low, m, e, q, x);
  }

  /** Two steps lead to the height that the skip pointer in between points to, if the walk steps down for its sake. */
  lemma TwoSteps(w: int, t: int)
    requires 0 <= t < w && w >= 4 && Even(w) && GetSkipHeight(w) > t && t <= GetSkipHeight(w - 1) < GetSkipHeight(w) - 2
    ensures Steps(w, t) == 2 + Steps(GetSkipHeight(w - 1), t)
  {
    hide GetSkipHeight, Steps;
    StepThenJump(w, t);
    FirstStep(w, t);
    FirstStep(w - 1, t);
  }

  /** Without that, one step takes the skip pointer. */
  lemma OneStep(w: int, t: int)
    requires 0 <= t < w && GetSkipHeight(w) > t && !(t <= GetSkipHeight(w - 1) < GetSkipHeight(w) - 2)
    ensures Steps(w, t) == 1 + Steps(GetSkipHeight(w), t)
  {
    hide GetSkipHeight, Steps;
    FirstStep(w, t);
  }

  /** Two steps from a position that is no multiple of eight, to an odd position with few one bits. */
  lemma FromOther(low: nat, m: nat, e: nat, q: nat, r: nat, r': nat, t: int)
    requires Halves(low, m, e, q) && 4 <= r < Pow2(e) && Even(r) && low <= t < m
    requires GetSkipHeight(m + r - 1) == m + r' && r' > 0 && Even(r' - 1) && r' + 2 < InvertLowestOne(r)
    ensures Steps(m + r, t) <= Ones(r') / 2 + 4 + Rest(low, m, t)
  {
    hide Halves, Pow2, InvertLowestOne, Ones, Rest, Steps, GetSkipHeight;
    HalvesEven(low, m, e, q);
    SkipEven(low, m, e, q, r);
    TwoSteps(m + r, t);
    FromOdd(low, m, e, q, r', t);
  }

  /** A position whose skip pointer leads to the start of the half, or to a position from which one does. */
  lemma FromLow(low: nat, m: nat, e: nat, q: nat, r: nat, z: nat, t: int)
    requires Halves(low, m, e, q) && 0 < r < Pow2(e) && Even(r) && low <= t < m && m + r >= 4
    requires InvertLowestOne(r) == z && (z > 0 ==> InvertLowestOne(z) == 0 && Even(z))
    requires var sp := GetSkipHeight(m + r - 1); (sp < low && z == 0) || (sp == low + 1 && low + 1 < m + z - 2)
    ensures Steps(m + r, t) <= 3 + Rest(low, m, t)
  {
    hide Halves, Pow2, InvertLowestOne, Rest, Steps, GetSkipHeight, Next;
    HalvesEven(low, m, e, q);
    SkipEven(low, m, e, q, r);
    var sp := GetSkipHeight(m + r - 1);
    if sp >= t {
      TwoSteps(m + r, t);
      NearLow(low, t);
    } else {
      OneStep(m + r, t);
      FromStart(low, m, e, q, t);
      if z > 0 {
        OneBit(low, m, e, q, z, t);
        FirstStep(m + z, t);
      }
    }
  }

  /** Enough steps to leave an upper half of 2^e heights from an even height. */
  ghost function EvenCost(e: nat): nat {
    if e >= 9 then e - 2 else (e + 5) / 2
  }

  lemma OnesEighth(k: nat, e: nat)
    requires 0 < 8 * k < Pow2(e)
    ensures e > 3 && Ones(8 * k) <= e - 3
  {
    EightTimes(k, e);
    OnesBound(k, e - 3);
    hide Pow2, Ones;
    OnesDouble(8 * k, 4 * k);
    OnesDouble(4 * k, 2 * k);
    OnesDouble(2 * k, k);
  }

  lemma EightTimes(k: nat, e: nat)
    requires 0 < 8 * k < Pow2(e)
    ensures e > 3 && k < Pow2(e - 3)
  {
    if e > 3 {
      Pow2Next(e - 1);
      Pow2Next(e - 2);
      Pow2Next(e - 3);
    }
  }

  lemma EvenCostIs(e: nat, n: nat)
    requires e >= 1
    ensures EvenCost(e) >= 3 && (e > 3 && n <= e - 3 ==> EvenCost(e) >= n + 1 && EvenCost(e) >= n / 2 + 4)
  {
  }

  lemma FromEven(low: nat, m: nat, e: nat, q: nat, r: nat, t: int)
    requires Halves(low, m, e, q) && r < Pow2(e) && Even(r) && low <= t < m
    ensures Steps(m + r, t) <= EvenCost(e) + Rest(low, m, t)
  {
    hide Halves, Pow2, Rest, Steps, EvenCost;
    HalvesEven(low, m, e, q);
    EvenCostIs(e, 0);
    if r == 0 {
      FromStart(low, m, e, q, t);
    } else if r < 8 {
      FromFirst(low, m, e, q, r, t);
    } else {
      FromLater(low, m, e, q, r / 8, r, t);
    }
  }

  lemma FromLater(low: nat, m: nat, e: nat, q: nat, k: nat, r: nat, t: int)
    requires Halves(low, m, e, q) && r < Pow2(e) && low <= t < m && k > 0
    requires r == 8 * k || r == 8 * k + 2 || r == 8 * k + 4 || r == 8 * k + 6
    ensures Steps(m + r, t) <= EvenCost(e) + Rest(low, m, t)
  {
    hide Halves, Pow2, Ones, Rest, Steps, EvenCost;
    HalvesEven(low, m, e, q);
    OnesEighth(k, e);
    EvenCostIs(e, Ones(8 * k));
    if r == 8 * k {
      FromEighth(low, m, e, q, k, t);
    } else if r == 8 * k + 2 {
      FromTwo(low, m, e, q, k, t);
    } else {
      FromFour(low, m, e, q, k, r, t);
    }
  }

  lemma FromFirst(low: nat, m: nat, e: nat, q: nat, r: nat, t: int)
    requires Halves(low, m, e, q) && r < Pow2(e) && (r == 2 || r == 4 || r == 6) && low <= t < m
    ensures Steps(m + r, t) <= 3 + Rest(low, m, t)
  {
    hide Halves, InvertLowestOne, Rest, Steps, GetSkipHeight, Next;
    HalvesEven(low, m, e, q);
    assert m >= low + 4;
    hide Pow2;
    InvertTwo(0);
    InvertTwo(1);
    InvertFour(0);
    SkipOdd(low, m, e, q, r - 2);
    FromLow(low, m, e, q, r, if r == 6 then 4 else 0, t);
  }

  lemma FromTwo(low: nat, m: nat, e: nat, q: nat, k: nat, t: int)
    requires Halves(low, m, e, q) && k > 0 && 8 * k + 2 < Pow2(e) && low <= t < m
    ensures Steps(m + (8 * k + 2), t) <= Ones(8 * k) / 2 + 4 + Rest(low, m, t)
  {
    hide *;
    HalvesEven(low, m, e, q);
    InvertTwo(2 * k);
    EvenTwice(8 * k, 4 * k);
    EvenTwice(8 * k + 2, 4 * k + 1);
    SkipOdd(low, m, e, q, 8 * k);
    if InvertLowestOne(8 * k) == 0 {
      FromLow(low, m, e, q, 8 * k + 2, 8 * k, t);
    } else {
      FromTwoBits(low, m, e, q, k, t);
    }
  }

  lemma FromTwoBits(low: nat, m: nat, e: nat, q: nat, k: nat, t: int)
    requires Halves(low, m, e, q) && k > 0 && 8 * k + 2 < Pow2(e) && low <= t < m && InvertLowestOne(8 * k) > 0
    ensures Steps(m + (8 * k + 2), t) <= Ones(8 * k) / 2 + 4 + Rest(low, m, t)
  {
    hide *;
    var y := InvertLowestOne(8 * k);
    var r' := InvertLowestOne(y) + 1;
    InvertTwo(2 * k);
    EvenTwice(8 * k, 4 * k);
    EvenTwice(8 * k + 2, 4 * k + 1);
    SkipOdd(low, m, e, q, 8 * k);
    OnesInvert(8 * k);
    OnesInvert(y);
    InvertOfEven(8 * k);
    InvertOfEven(y);
    OnesOdd(r');
    FromOther(low, m, e, q, 8 * k + 2, r', t);
  }

  lemma FromFour(low: nat, m: nat, e: nat, q: nat, k: nat, r: nat, t: int)
    requires Halves(low, m, e, q) && k > 0 && (r == 8 * k + 4 || r == 8 * k + 6) && r < Pow2(e) && low <= t < m
    ensures Steps(m + r, t) <= Ones(8 * k) / 2 + 4 + Rest(low, m, t)
  {
    hide *;
    var r', half := InvertLowestOne(8 * k) + 1, if r == 8 * k + 4 then 4 * k + 2 else 4 * k + 3;
    EvenTwice(8 * k, 4 * k);
    EvenTwice(r, half);
    EvenTwice(r - 2, half - 1);
    InvertTwo(2 * k);
    InvertTwo(2 * k + 1);
    InvertFour(k);
    InvertEight(k);
    InvertOfEven(8 * k);
    SkipOdd(low, m, e, q, r - 2);
    OnesInvert(8 * k);
    OnesOdd(r');
    FromOther(low, m, e, q, r, r', t);
  }

  // ---------- the bound ----------

  /** Enough steps for a walk from an odd height within an aligned block of 2^d heights. */
  ghost function OddCap(d: nat): nat {
    if d <= 2 then d else if d == 3 then 4 else OddCap(d - 1) + (d + 1) / 2 + 1
  }

  /** Enough steps for any walk within such a block. */
  ghost function Cap(d: nat): nat {
    if d == 0 then 0 else OddCap(d - 1) + EvenCost(d - 1)
  }

  lemma CapGrows(d: nat)
    ensures OddCap(d) <= OddCap(d + 1) && Cap(d) <= Cap(d + 1) && OddCap(d) <= Cap(d)
  {
  }

  /** Where the aligned block q of 2^d heights starts. */
  ghost function Start(d: nat, q: nat): nat {
    MulMono(0, Pow2(d), q);
    Pow2(d) * q
  }

  lemma Halved(d: nat, q: nat)
    requires d > 0
    ensures Pow2(d) == 2 * Pow2(d - 1) && Start(d, q) == Start(d - 1, 2 * q)
    ensures Start(d - 1, 2 * q + 1) == Start(d, q) + Pow2(d - 1)
    ensures d > 1 ==> Halves(Start(d, q), Start(d, q) + Pow2(d - 1), d - 1, q)
  {
    Pow2Next(d - 1);
    Twice(Pow2(d - 1), q);
    Double(Pow2(d - 1), q);
    OneMore(Pow2(d - 1), 2 * q);
  }

  lemma {:induction false} OddSteps(d: nat, q: nat, w: int, t: int)
    requires Start(d, q) <= t <= w < Start(d, q) + Pow2(d) && Even(w - 1)
    ensures Steps(w, t) <= OddCap(d)
    decreases d
  {
    hide *;
    if d == 0 {
      Pow2Zero();
      NoSteps(t);
    } else {
      var e, low := d - 1, Start(d, q);
      var m := low + Pow2(e);
      Halved(d, q);
      CapGrows(e);
      if w < m {
        OddSteps(e, 2 * q, w, t);
      } else if t >= m {
        OddSteps(e, 2 * q + 1, w, t);
      } else if e == 0 {
        Pow2Zero();
        OneApart(low, w, t);
      } else {
        HalvesEven(low, m, e, q);
        Parity(w, m);
        if t > low {
          OddSteps(e, 2 * q, m - 1, t);
        }
        OddAcross(low, m, e, q, w - m, t);
      }
    }
  }

  lemma OneApart(low: nat, w: int, t: int)
    requires t == low && w == low + 1
    ensures Steps(w, t) <= OddCap(1)
  {
    assert Next(w, t) == t;
  }

  lemma OddAcross(low: nat, m: nat, e: nat, q: nat, r: nat, t: int)
    requires Halves(low, m, e, q) && 0 < r < Pow2(e) && Even(r - 1) && low <= t < m && (t > low ==> Steps(m - 1, t) <= OddCap(e))
    ensures Steps(m + r, t) <= OddCap(e + 1)
  {
    hide Halves, Ones, Next, Steps, InvertLowestOne;
    HalvesEven(low, m, e, q);
    FromOdd(low, m, e, q, r, t);
    OnesBound(r, e);
    if e == 1 {
      NoSteps(t);
    } else if e == 2 {
      AcrossFour(low, m, q, r, t);
    }
  }

  lemma AcrossFour(low: nat, m: nat, q: nat, r: nat, t: int)
    requires Halves(low, m, 2, q) && 0 < r < 4 && Even(r - 1) && low <= t < m
    ensures Steps(m + r, t) <= 4
  {
    assert low == Pow2(3) * q;
    hide Halves, Ones, Next, Steps, InvertLowestOne;
    HalvesEven(low, m, 2, q);
    InvertTwo(0);
    assert InvertLowestOne(0) == 0;
    FewBits(low, m, 2, q, r, t);
    if t > low {
      DownFromThree(low, q, t);
    }
  }

  /** At the end of a block of four, the walk goes down one by one. */
  lemma DownFromThree(low: nat, q: nat, t: int)
    requires low == Pow2(3) * q && low < t <= low + 3
    ensures Steps(low + 3, t) <= low + 3 - t
  {
    SkipThree(low, q);
    hide Pow2, GetSkipHeight;
    NoSteps(t);
    if t < low + 3 {
      FirstStep(low + 3, t);
      if t < low + 2 {
        FirstStep(low + 2, t);
      }
    }
  }

  lemma SkipThree(low: nat, q: nat)
    requires low == Pow2(3) * q
    ensures GetSkipHeight(low + 3) <= low + 1 && GetSkipHeight(low + 2) == low
  {
    hide InvertLowestOne;
    assert Pow2(3) == 8;
    InvertTwo(2 * q);
    OddSkip(low + 2);
  }

  lemma {:induction false} AllSteps(d: nat, q: nat, w: int, t: int)
    requires Start(d, q) <= t <= w < Start(d, q) + Pow2(d)
    ensures Steps(w, t) <= Cap(d)
    decreases d
  {
    hide *;
    CapGrows(d);
    if !Even(w) {
      EvenTwice(0, 0);
      Parity(w, 0);
      OddSteps(d, q, w, t);
    } else if d == 0 {
      Pow2Zero();
      NoSteps(t);
    } else {
      var e, low := d - 1, Start(d, q);
      var m := low + Pow2(e);
      Halved(d, q);
      CapGrows(e);
      if w < m {
        AllSteps(e, 2 * q, w, t);
      } else if t >= m {
        AllSteps(e, 2 * q + 1, w, t);
      } else if e == 0 {
        Pow2Zero();
        OneApart(low, w, t);
      } else {
        AnyAcross(d, q, low, m, w, t);
      }
    }
  }

  lemma AnyAcross(d: nat, q: nat, low: nat, m: nat, w: int, t: int)
    requires d > 1 && low == Start(d, q) && m == low + Pow2(d - 1) && low <= t < m <= w < low + Pow2(d) && Even(w)
    ensures Steps(w, t) <= Cap(d)
  {
    hide *;
    Halved(d, q);
    HalvesEven(low, m, d - 1, q);
    Parity(w, m);
    var r := w - m;
    FromEven(low, m, d - 1, q, r, t);
    if t > low {
      OddSteps(d - 1, 2 * q, m - 1, t);
    }
    CapIs(d, low, m, t);
  }

  lemma Parity(w: int, m: int)
    requires Even(m)
    ensures Even(m - 1 - 1) && (if Even(w) then Even(w - m) else Even(w - 1) && Even(w - m - 1))
    ensures Even(w) != Even(w - 1)
  {
  }

  lemma CapIs(d: nat, low: nat, m: nat, t: int)
    requires d > 0 && low <= t < m && (t > low ==> Steps(m - 1, t) <= OddCap(d - 1))
    ensures EvenCost(d - 1) + Rest(low, m, t) <= Cap(d)
  {
  }

  lemma {:induction false} OddCapIs(d: nat)
    requires d >= 3
    ensures 4 * OddCap(d) == d * d + 6 * d - if d % 2 == 0 then 12 else 11
  {
    if d > 3 {
      OddCapIs(d - 1);
      OddCapNext(d);
      Square(d);
      hide OddCap;
    }
  }

  lemma OddCapNext(d: nat)
    requires d > 3
    ensures 4 * OddCap(d) == 4 * OddCap(d - 1) + 2 * d + if d % 2 == 0 then 4 else 6
  {
  }

  lemma Square(d: int)
    ensures (d - 1) * (d - 1) == d * d - 2 * d + 1
  {
  }

  lemma CapBound(d: nat)
    ensures 4 * Cap(d) <= d * d + 8 * d
  {
    if d > 3 {
      OddCapIs(d - 1);
      Square(d);
    }
  }

  lemma Cap18()
    ensures Cap(18) == 110
  {
    assert OddCap(6) == 15;
    assert OddCap(9) == 31;
    assert OddCap(12) == 51;
    assert OddCap(15) == 76;
    assert OddCap(17) == 95;
  }

  /** The steps are at most (d^2 + 8 d) / 4 for a height of d bits, and at most 110 up to height 2^18. */
  ghost predicate Few(w: int, steps: nat) {
    && (forall d: nat :: w < Pow2(d) ==> 4 * steps <= d * d + 8 * d)
    && (w <= 262144 ==> steps <= 110)
  }

  lemma NoneIsFew(w: int)
    ensures Few(w, 0)
  {
    forall d: nat | w < Pow2(d)
      ensures 0 <= d * d + 8 * d
    {
      MulMono(0, d, d);
    }
  }

  /** A walk along skip pointers takes few steps. */
  lemma WalkSteps(w: int, t: int)
    requires 0 <= t <= w
    ensures Few(w, Steps(w, t))
  {
    hide Cap, Steps;
    forall d: nat | w < Pow2(d)
      ensures 4 * Steps(w, t) <= d * d + 8 * d && (d == 18 ==> Steps(w, t) <= 110)
    {
      AllSteps(d, 0, w, t);
      CapBound(d);
      Cap18();
    }
    Pow2At18();
    if w == 262144 {
      FromPow2(18, t);
      assert OddCap(18) == 105 by {
        OddCapIs(18);
      }
    }
  }

  /** From a power of two, either its skip pointer or a single step is taken. */
  lemma FromPow2(d: nat, t: int)
    requires 3 <= d && 0 <= t <= Pow2(d)
    ensures Steps(Pow2(d), t) <= 1 + OddCap(d)
  {
    hide Steps, OddCap, InvertLowestOne;
    var w := Pow2(d);
    Pow2Next(d - 1);
    EvenTwice(w, Pow2(d - 1));
    InvertPow2(d);
    NoSteps(t);
    if t < w {
      FirstStep(w, t);
      if t > 0 {
        EvenTwice(w - 2, Pow2(d - 1) - 1);
        OddSteps(d, 0, w - 1, t);
      }
    }
  }

  lemma Pow2At18()
    ensures Pow2(18) == 262144
  {
    assert Pow2(6) == 64;
    assert Pow2(12) == 4096;
  }
}
