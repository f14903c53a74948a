/** The xorshift generator: three shifts and exclusive ors on a 64-bit state. */
module FastRng {

  function Left7(x: bv64): bv64 {
    x ^ (x << 7)
  }

  function Right9(x: bv64): bv64 {
    x ^ (x >> 9)
  }

  function Left8(x: bv64): bv64 {
    x ^ (x << 8)
  }

  function Step(x: bv64): bv64 {
    Left8(Right9(Left7(x)))
  }

  // ---------- The step can be undone ----------

  function Left14(x: bv64): bv64 { x ^ (x << 14) }
  function Left16(x: bv64): bv64 { x ^ (x << 16) }
  function Left28(x: bv64): bv64 { x ^ (x << 28) }
  function Left32(x: bv64): bv64 { x ^ (x << 32) }
  function Left56(x: bv64): bv64 { x ^ (x << 56) }
  function Right18(x: bv64): bv64 { x ^ (x >> 18) }
  function Right36(x: bv64): bv64 { x ^ (x >> 36) }

  function UndoLeft7(y: bv64): bv64 {
    Left56(Left28(Left14(Left7(y))))
  }

  function UndoRight9(y: bv64): bv64 {
    Right36(Right18(Right9(y)))
  }

  function UndoLeft8(y: bv64): bv64 {
    Left32(Left16(Left8(y)))
  }

  function Back(y: bv64): bv64 {
    UndoLeft7(UndoRight9(UndoLeft8(y)))
  }

  // Applied twice, a shift step is the step of twice the distance, and beyond the word it is nothing.

  lemma Left7Bits(x: bv64)
    ensures (x ^ (x << 7)) ^ ((x ^ (x << 7)) << 7) == x ^ (x << 14)
  {
  }

  lemma Left7Twice(x: bv64)
    ensures Left7(Left7(x)) == Left14(x)
  {
    Left7Bits(x);
    assert Left7(x) == x ^ (x << 7);
  }

  lemma Left14Bits(x: bv64)
    ensures (x ^ (x << 14)) ^ ((x ^ (x << 14)) << 14) == x ^ (x << 28)
  {
  }

  lemma Left14Twice(x: bv64)
    ensures Left14(Left14(x)) == Left28(x)
  {
    Left14Bits(x);
    assert Left14(x) == x ^ (x << 14);
  }

  lemma Left28Bits(x: bv64)
    ensures (x ^ (x << 28)) ^ ((x ^ (x << 28)) << 28) == x ^ (x << 56)
  {
  }

  lemma Left28Twice(x: bv64)
    ensures Left28(Left28(x)) == Left56(x)
  {
    Left28Bits(x);
    assert Left28(x) == x ^ (x << 28);
  }

  lemma Left56Bits(x: bv64)
    ensures (x ^ (x << 56)) ^ ((x ^ (x << 56)) << 56) == x
  {
  }

  lemma Left56Twice(x: bv64)
    ensures Left56(Left56(x)) == x
  {
    Left56Bits(x);
    assert Left56(x) == x ^ (x << 56);
  }

  lemma Left8Bits(x: bv64)
    ensures (x ^ (x << 8)) ^ ((x ^ (x << 8)) << 8) == x ^ (x << 16)
  {
  }

  lemma Left8Twice(x: bv64)
    ensures Left8(Left8(x)) == Left16(x)
  {
    Left8Bits(x);
    assert Left8(x) == x ^ (x << 8);
  }

  lemma Left16Bits(x: bv64)
    ensures (x ^ (x << 16)) ^ ((x ^ (x << 16)) << 16) == x ^ (x << 32)
  {
  }

  lemma Left16Twice(x: bv64)
    ensures Left16(Left16(x)) == Left32(x)
  {
    Left16Bits(x);
    assert Left16(x) == x ^ (x << 16);
  }

  lemma Left32Bits(x: bv64)
    ensures (x ^ (x << 32)) ^ ((x ^ (x << 32)) << 32) == x
  {
  }

  lemma Left32Twice(x: bv64)
    ensures Left32(Left32(x)) == x
  {
    Left32Bits(x);
    assert Left32(x) == x ^ (x << 32);
  }

  lemma Right9Bits(x: bv64)
    ensures (x ^ (x >> 9)) ^ ((x ^ (x >> 9)) >> 9) == x ^ (x >> 18)
  {
  }

  lemma Right9Twice(x: bv64)
    ensures Right9(Right9(x)) == Right18(x)
  {
    Right9Bits(x);
    assert Right9(x) == x ^ (x >> 9);
  }

  lemma Right18Bits(x: bv64)
    ensures (x ^ (x >> 18)) ^ ((x ^ (x >> 18)) >> 18) == x ^ (x >> 36)
  {
  }

  lemma Right18Twice(x: bv64)
    ensures Right18(Right18(x)) == Right36(x)
  {
    Right18Bits(x);
    assert Right18(x) == x ^ (x >> 18);
  }

  lemma Right36Bits(x: bv64)
    ensures (x ^ (x >> 36)) ^ ((x ^ (x >> 36)) >> 36) == x
  {
  }

  lemma Right36Twice(x: bv64)
    ensures Right36(Right36(x)) == x
  {
    Right36Bits(x);
    assert Right36(x) == x ^ (x >> 36);
  }

  /** The inverse of the step. */
  lemma StepIsUndone(x: bv64)
    ensures Back(Step(x)) == x
  {
    hide Left7, Left14, Left28, Left56, Left8, Left16, Left32, Right9, Right18, Right36;
    var y := Left7(x);
    var z := Right9(y);
    Left8Twice(z);
    Left16Twice(z);
    Left32Twice(z);
    Right9Twice(y);
    Right18Twice(y);
    Right36Twice(y);
    Left7Twice(x);
    Left14Twice(x);
    Left28Twice(x);
    Left56Twice(x);
  }

  lemma StepOfZero()
    ensures Step(0) == 0
  {
    assert Left7(0) == 0;
    assert Right9(0) == 0;
    assert Left8(0) == 0;
  }

  // ---------- Runs ----------

  function State(seed: bv64, n: nat): bv64 {
    if n == 0 then seed else Step(State(seed, n - 1))
  }

  /** A run is zero everywhere or nowhere. */
  lemma {:induction false} ZeroOnlyFromZero(seed: bv64, n: nat)
    ensures State(seed, n) == 0 <==> seed == 0
  {
    hide Step, Back;
    if n > 0 {
      ZeroOnlyFromZero(seed, n - 1);
      StepOfZero();
      StepIsUndone(State(seed, n - 1));
      StepIsUndone(0);
    }
  }

  /** Where a run meets itself it has returned to its seed: it has no tail before its cycle. */
  lemma {:induction false} PurelyPeriodic(seed: bv64, i: nat, j: nat)
    requires i < j && State(seed, i) == State(seed, j)
    ensures State(seed, j - i) == seed
  {
    hide Step, Back;
    if i > 0 {
      StepIsUndone(State(seed, i - 1));
      StepIsUndone(State(seed, j - 1));
      PurelyPeriodic(seed, i - 1, j - 1);
    }
  }

  const STATES: nat := 0x1_0000_0000_0000_0000

  /** More numbers than values: two of them are equal. */
  lemma {:induction false} Pigeonhole(s: seq<nat>, n: nat)
    requires |s| > n && forall i | 0 <= i < |s| :: s[i] < n
    ensures exists i, j :: 0 <= i < j < |s| && s[i] == s[j]
    decreases n
  {
    assert s[0] < n;
    if i, j :| 0 <= i < j < |s| && s[i] == s[j] == n - 1 {
    } else if k :| 0 <= k < |s| && s[k] == n - 1 {
      var t := s[..k] + s[k + 1..];
      Pigeonhole(t, n - 1);
      var i, j :| 0 <= i < j < |t| && t[i] == t[j];
      var i', j' := if i < k then i else i + 1, if j < k then j else j + 1;
      assert s[i'] == s[j'];
    } else {
      Pigeonhole(s[1..], n - 1);
      var i, j :| 0 <= i < j < |s| - 1 && s[1..][i] == s[1..][j];
      assert s[i + 1] == s[j + 1];
    }
  }

  lemma NumberIsExact(x: bv64, y: bv64)
    requires x as int == y as int
    ensures x == y
  {
    assert (x as int) as bv64 == x && (y as int) as bv64 == y;
  }

  /** Every run returns to its seed, after at most as many steps as there are states. */
  lemma SeedReturns(seed: bv64)
    ensures exists p: nat :: 1 <= p <= STATES && State(seed, p) == seed
  {
    hide Step, State;
    var s: seq<nat> := seq(STATES + 1, i requires 0 <= i => State(seed, i) as nat);
    Pigeonhole(s, STATES);
    var i: nat, j: nat :| i < j < |s| && s[i] == s[j];
    NumberIsExact(State(seed, i), State(seed, j));
    PurelyPeriodic(seed, i, j);
    assert State(seed, j - i) == seed;
  }

  /** The step is a permutation of the states: none is reached twice, and each is reached. */
  lemma StepIsPermutation(x: bv64, y: bv64)
    ensures Step(x) == Step(y) ==> x == y
    ensures exists before :: Step(before) == x
  {
    hide Step, Back;
    StepIsUndone(x);
    StepIsUndone(y);
    SeedReturns(x);
    var p: nat :| 1 <= p && State(x, p) == x;
    assert State(x, p) == Step(State(x, p - 1));
  }

  /** The first number from the default seed. */
  lemma FirstNumber()
    ensures Step(88172645463325252) == 5340461889569763688
  {
  }

  // ---------- The generator ----------

  class FastRNG {
    var s: bv64

    constructor (seed: bv64)
      ensures s == seed
    {
      s := seed;
    }

    method Next() returns (x: bv64)
      modifies this
      ensures x == s == Step(old(s)) && Back(s) == old(s)
    {
      hide Back, Left7, Right9, Left8;
      StepIsUndone(s);
      x := s;
      x := Left7(x);
      x := Right9(x);
      x := Left8(x);
      s := x;
    }

    /** Nothing is drawn for an empty range. */
    method Uniform(n: nat) returns (r: nat)
      requires n < STATES
      modifies this
      ensures if n == 0 then r == 0 && s == old(s) else r < n && s == Step(old(s)) && r == s as nat % n
    {
      hide Step, Back;
      if n == 0 {
        return 0;
      }
      var x := Next();
      r := x as nat % n;
    }
  }
}
