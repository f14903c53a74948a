/**
 Natural ordering of names: runs of digits compare by value, other bytes by their lower-case
 letter, read as the signed `char` of the code.
 */
module NaturalOrder {

  type Byte = b: int | 0 <= b < 256
  type Text = seq<Byte>

  /** `std::stoll` refuses values above this one. */
  const MAX_NUMBER := 0x7FFF_FFFF_FFFF_FFFF

  datatype Token = Number(value: nat) | Letter(code: int)

  datatype Outcome = Threw | Answer(sign: int)

  predicate IsDigit(c: int) {
    48 <= c <= 57
  }

  function ToLower(c: Byte): Byte {
    if 65 <= c <= 90 then c + 32 else c
  }

  function SignedChar(c: Byte): int {
    if c >= 128 then c - 256 else c
  }

  // ---------- What is compared ----------

  function DigitRun(s: Text): (n: nat)
    ensures n <= |s| && forall i | 0 <= i < n :: IsDigit(s[i])
    ensures n < |s| ==> !IsDigit(s[n])
  {
    if s == [] || !IsDigit(s[0]) then 0 else 1 + DigitRun(s[1..])
  }

  function Value(digits: Text): nat
    requires forall i | 0 <= i < |digits| :: IsDigit(digits[i])
  {
    if digits == [] then 0
    else
      var last: int := digits[|digits| - 1];
      assert IsDigit(last);
      10 * Value(digits[..|digits| - 1]) + last - 48
  }

  /** The maximal digit runs and the single other bytes, in order. */
  function Tokens(s: Text): seq<Token>
    decreases |s|
  {
    if s == [] then []
    else if IsDigit(s[0]) then [Number(Value(s[..DigitRun(s)]))] + Tokens(s[DigitRun(s)..])
    else [Letter(SignedChar(ToLower(s[0])))] + Tokens(s[1..])
  }

  // ---------- An order on token sequences ----------

  /** The digits lie together, so all numbers take the place of '0' among the letters. */
  function Rank(t: Token): (int, int) {
    match t
    case Number(v) => (48, v)
    case Letter(c) => (c, 0)
  }

  function Pair(x: (int, int), y: (int, int)): int {
    if x.0 < y.0 || (x.0 == y.0 && x.1 < y.1) then -1 else if x == y then 0 else 1
  }

  /** Lexicographic comparison: a proper prefix comes first. */
  function Lex(s: seq<(int, int)>, t: seq<(int, int)>): int {
    if s == [] || t == [] then
      if s != [] then 1 else if t != [] then -1 else 0
    else if Pair(s[0], t[0]) != 0 then Pair(s[0], t[0])
    else Lex(s[1..], t[1..])
  }

  function Ranks(ts: seq<Token>): seq<(int, int)> {
    seq(|ts|, i requires 0 <= i < |ts| => Rank(ts[i]))
  }

  function NameOrder(a: Text, b: Text): int {
    Lex(Ranks(Tokens(a)), Ranks(Tokens(b)))
  }

  predicate Fits(ts: seq<Token>) {
    forall t | t in ts :: t.Number? ==> t.value <= MAX_NUMBER
  }

  // ---------- Laws of comparison functions ----------

  ghost predicate Preorder<T(!new)>(cmp: (T, T) -> int) {
    && (forall x, y :: cmp(x, y) == -cmp(y, x))
    && (forall x, y, z :: cmp(x, y) <= 0 && cmp(y, z) <= 0 ==> cmp(x, z) <= 0)
  }

  /** What `std::sort` requires: irreflexive, transitive, and incomparability is transitive. */
  ghost predicate StrictWeak<T(!new)>(less: (T, T) -> bool) {
    && (forall x :: !less(x, x))
    && (forall x, y, z :: less(x, y) && less(y, z) ==> less(x, z))
    && (forall x, y, z :: !less(x, y) && !less(y, x) && !less(y, z) && !less(z, y) ==> !less(x, z) && !less(z, x))
  }

  function Before<T>(cmp: (T, T) -> int): (T, T) -> bool {
    (x: T, y: T) => cmp(x, y) < 0
  }

  function Reverse<T>(cmp: (T, T) -> int, descending: bool): (T, T) -> int {
    if descending then (x: T, y: T) => -cmp(x, y) else cmp
  }

  function Then<T>(first: (T, T) -> int, second: (T, T) -> int): (T, T) -> int {
    (x: T, y: T) => if first(x, y) != 0 then first(x, y) else second(x, y)
  }

  function On<S, T>(cmp: (T, T) -> int, key: S -> T): (S, S) -> int {
    (x: S, y: S) => cmp(key(x), key(y))
  }

  lemma PreorderIsStrictWeak<T(!new)>(cmp: (T, T) -> int)
    requires Preorder(cmp)
    ensures StrictWeak(Before(cmp))
  {
    var less := Before(cmp);
    forall x, y, z | less(x, y) && less(y, z)
      ensures less(x, z)
    {
      assert cmp(y, z) <= 0 && cmp(x, z) <= 0;
      assert cmp(z, x) <= 0 ==> cmp(z, y) <= 0;
    }
  }

  lemma ReversePreorder<T(!new)>(cmp: (T, T) -> int, descending: bool)
    requires Preorder(cmp)
    ensures Preorder(Reverse(cmp, descending))
  {
    var r := Reverse(cmp, descending);
    forall x, y, z | r(x, y) <= 0 && r(y, z) <= 0
      ensures r(x, z) <= 0
    {
      if descending {
        assert cmp(z, y) <= 0 && cmp(y, x) <= 0;
      }
    }
  }

  lemma ThenPreorder<T(!new)>(first: (T, T) -> int, second: (T, T) -> int)
    requires Preorder(first) && Preorder(second)
    ensures Preorder(Then(first, second))
  {
    var c := Then(first, second);
    forall x, y, z | c(x, y) <= 0 && c(y, z) <= 0
      ensures c(x, z) <= 0
    {
      assert first(x, y) <= 0 && first(y, z) <= 0;
      if first(x, z) == 0 {
        assert first(z, x) <= 0;
        assert first(y, x) <= 0 && first(z, y) <= 0;
      }
    }
  }

  lemma OnPreorder<S(!new), T(!new)>(cmp: (T, T) -> int, key: S -> T)
    requires Preorder(cmp)
    ensures Preorder(On(cmp, key))
  {
  }

  // ---------- The token order is a total preorder ----------

  lemma {:induction false} LexTurns(s: seq<(int, int)>, t: seq<(int, int)>)
    ensures Lex(s, t) == -Lex(t, s)
  {
    if s != [] && t != [] {
      LexTurns(s[1..], t[1..]);
    }
  }

  lemma {:induction false} LexChains(s: seq<(int, int)>, t: seq<(int, int)>, u: seq<(int, int)>)
    requires Lex(s, t) <= 0 && Lex(t, u) <= 0
    ensures Lex(s, u) <= 0
  {
    if s != [] && t != [] && u != [] && Pair(s[0], t[0]) == 0 && Pair(t[0], u[0]) == 0 {
      LexChains(s[1..], t[1..], u[1..]);
    }
  }

  lemma {:induction false} LexZero(s: seq<(int, int)>, t: seq<(int, int)>)
    ensures Lex(s, t) == 0 <==> s == t
  {
    if s != [] && t != [] {
      LexZero(s[1..], t[1..]);
      assert s == [s[0]] + s[1..] && t == [t[0]] + t[1..];
    }
  }

  lemma LexPreorder()
    ensures Preorder(Lex)
  {
    forall s, t
      ensures Lex(s, t) == -Lex(t, s)
    {
      LexTurns(s, t);
    }
    forall s, t, u | Lex(s, t) <= 0 && Lex(t, u) <= 0
      ensures Lex(s, u) <= 0
    {
      LexChains(s, t, u);
    }
  }

  lemma NameOrderPreorder()
    ensures Preorder(NameOrder)
  {
    hide Lex, Ranks, Tokens;
    LexPreorder();
  }

  lemma {:induction false} LettersAreNoDigits(s: Text)
    ensures forall t | t in Tokens(s) :: t.Letter? ==> !IsDigit(t.code)
    decreases |s|
  {
    if s != [] {
      LettersAreNoDigits(if IsDigit(s[0]) then s[DigitRun(s)..] else s[1..]);
    }
  }

  /** Two names are equal in natural order exactly when they have the same tokens. */
  lemma EqualMeansSameTokens(a: Text, b: Text)
    ensures NameOrder(a, b) == 0 <==> Tokens(a) == Tokens(b)
  {
    var s, t := Tokens(a), Tokens(b);
    LexZero(Ranks(s), Ranks(t));
    if Ranks(s) == Ranks(t) {
      LettersAreNoDigits(a);
      LettersAreNoDigits(b);
      assert |s| == |t|;
      forall i | 0 <= i < |s|
        ensures s[i] == t[i]
      {
        assert Ranks(s)[i] == Ranks(t)[i];
        assert s[i] in s && t[i] in t;
      }
    }
  }

  // ---------- The code's comparison, and when it throws ----------

  predicate TooBig(t: Token) {
    t.Number? && t.value > MAX_NUMBER
  }

  function TokenOrder(s: seq<Token>, t: seq<Token>): Outcome {
    if s == [] || t == [] then
      Answer(if s != [] then 1 else if t != [] then -1 else 0)
    else if s[0].Number? && t[0].Number? && (TooBig(s[0]) || TooBig(t[0])) then Threw
    else if s[0] == t[0] then TokenOrder(s[1..], t[1..])
    else Answer(Pair(Rank(s[0]), Rank(t[0])))
  }

  /** The place where both names carry a number, one too big, after the same beginning. */
  predicate Clash(s: seq<Token>, t: seq<Token>, k: nat) {
    && k < |s| && k < |t| && s[..k] == t[..k]
    && s[k].Number? && t[k].Number? && (TooBig(s[k]) || TooBig(t[k]))
  }

  lemma {:induction false} ThrowsIsExact(s: seq<Token>, t: seq<Token>)
    ensures TokenOrder(s, t) == Threw <==> exists k: nat :: Clash(s, t, k)
  {
    if s != [] && t != [] {
      if s[0].Number? && t[0].Number? && (TooBig(s[0]) || TooBig(t[0])) {
        assert Clash(s, t, 0);
      } else if s[0] == t[0] {
        ThrowsIsExact(s[1..], t[1..]);
        if k: nat :| Clash(s[1..], t[1..], k) {
          assert s[..k + 1] == [s[0]] + s[1..][..k] && t[..k + 1] == [t[0]] + t[1..][..k];
          assert Clash(s, t, k + 1);
        }
        if k: nat :| Clash(s, t, k) {
          assert s[1..][..k - 1] == s[..k][1..] && t[1..][..k - 1] == t[..k][1..];
          assert Clash(s[1..], t[1..], k - 1);
        }
      } else {
        assert forall k: nat | Clash(s, t, k) :: k > 0 && s[..k][0] == s[0] && t[..k][0] == t[0];
      }
    }
  }

  /** Where it answers, the code agrees with the order on token sequences. */
  lemma {:induction false} AnswersAgree(s: seq<Token>, t: seq<Token>)
    requires TokenOrder(s, t).Answer?
    requires forall x | x in s + t :: x.Letter? ==> !IsDigit(x.code)
    ensures TokenOrder(s, t).sign == Lex(Ranks(s), Ranks(t))
  {
    if s != [] && t != [] {
      assert s[0] in s + t && t[0] in s + t;
      assert Ranks(s)[1..] == Ranks(s[1..]) && Ranks(t)[1..] == Ranks(t[1..]);
      if s[0] == t[0] {
        AnswersAgree(s[1..], t[1..]);
      }
    }
  }

  function NaturalCompare(a: Text, b: Text): Outcome {
    TokenOrder(Tokens(a), Tokens(b))
  }

  predicate Sortable(a: Text) {
    Fits(Tokens(a))
  }

  lemma SortableNeverThrows(a: Text, b: Text)
    requires Sortable(a) && Sortable(b)
    ensures NaturalCompare(a, b) == Answer(NameOrder(a, b))
  {
    var s, t := Tokens(a), Tokens(b);
    ThrowsIsExact(s, t);
    assert forall k: nat | Clash(s, t, k) :: s[k] in s && t[k] in t;
    LettersAreNoDigits(a);
    LettersAreNoDigits(b);
    AnswersAgree(s, t);
  }

  method Digits(s: Text, from: nat) returns (end: nat)
    requires from <= |s|
    ensures end == from + DigitRun(s[from..])
  {
    end := from;
    while end < |s| && IsDigit(s[end])
      invariant from <= end <= |s|
      invariant from + DigitRun(s[from..]) == end + DigitRun(s[end..])
    {
      assert s[end..][1..] == s[end + 1..];
      end := end + 1;
    }
  }

  /** The number a run stands for, or nothing when `std::stoll` throws. */
  function Stoll(digits: Text): (r: Outcome)
    requires forall i | 0 <= i < |digits| :: IsDigit(digits[i])
  {
    if Value(digits) > MAX_NUMBER then Threw else Answer(Value(digits))
  }

  lemma NumbersStep(x: Text, y: Text)
    requires x != [] && y != [] && IsDigit(x[0]) && IsDigit(y[0])
    ensures var m, n := Stoll(x[..DigitRun(x)]), Stoll(y[..DigitRun(y)]);
      NaturalCompare(x, y) ==
        if m.Threw? || n.Threw? then Threw
        else if m.sign != n.sign then Answer(if m.sign < n.sign then -1 else 1)
        else NaturalCompare(x[DigitRun(x)..], y[DigitRun(y)..])
  {
    hide Value, DigitRun;
    var s, t := Tokens(x[DigitRun(x)..]), Tokens(y[DigitRun(y)..]);
    assert Tokens(x)[1..] == s && Tokens(y)[1..] == t;
  }

  /** Unless both start with a digit, different first letters decide. */
  lemma LettersStep(x: Text, y: Text)
    requires x != [] && y != [] && !(IsDigit(x[0]) && IsDigit(y[0]))
    ensures var c, d := SignedChar(ToLower(x[0])), SignedChar(ToLower(y[0]));
      NaturalCompare(x, y) ==
        if c != d then Answer(if c < d then -1 else 1) else NaturalCompare(x[1..], y[1..])
  {
    hide Value, DigitRun;
    var c, d := SignedChar(ToLower(x[0])), SignedChar(ToLower(y[0]));
    if c == d {
      assert Tokens(x)[1..] == Tokens(x[1..]) && Tokens(y)[1..] == Tokens(y[1..]);
    }
  }

  lemma EndStep(x: Text, y: Text)
    requires x == [] || y == []
    ensures NaturalCompare(x, y) == Answer(if x != [] then 1 else if y != [] then -1 else 0)
  {
    hide Value, DigitRun;
  }

  method CompareNaturalString(a: Text, b: Text) returns (r: Outcome)
    ensures r == NaturalCompare(a, b) == BySight(a, b)
  {
    hide NaturalCompare, BySight, Stoll, SignedChar, ToLower;
    SightIsExact(a, b);
    var i, j := 0, 0;
    assert a[0..] == a && b[0..] == b;
    while i < |a| && j < |b|
      invariant i <= |a| && j <= |b|
      invariant NaturalCompare(a, b) == NaturalCompare(a[i..], b[j..])
    {
      ghost var x, y := a[i..], b[j..];
      if IsDigit(a[i]) && IsDigit(b[j]) {
        var i' := Digits(a, i);
        var j' := Digits(b, j);
        NumbersStep(x, y);
        assert x[..DigitRun(x)] == a[i..i'] && y[..DigitRun(y)] == b[j..j'];
        assert x[DigitRun(x)..] == a[i'..] && y[DigitRun(y)..] == b[j'..];
        var m, n := Stoll(a[i..i']), Stoll(b[j..j']);
        if m.Threw? || n.Threw? {
          return Threw;
        }
        if m.sign != n.sign {
          return Answer(if m.sign < n.sign then -1 else 1);
        }
        i, j := i', j';
      } else {
        LettersStep(x, y);
        var c, d := SignedChar(ToLower(a[i])), SignedChar(ToLower(b[j]));
        if c != d {
          return Answer(if c < d then -1 else 1);
        }
        assert x[1..] == a[i + 1..] && y[1..] == b[j + 1..];
        i, j := i + 1, j + 1;
      }
    }
    EndStep(a[i..], b[j..]);
    return Answer(if i < |a| then 1 else if j < |b| then -1 else 0);
  }

  // ---------- The same comparison by sight, without numbers ----------

  predicate AllDigits(s: Text) {
    forall i | 0 <= i < |s| :: IsDigit(s[i])
  }

  /** The first place where the texts differ is `k`, and there `a` is smaller or at its end. */
  predicate FirstLess(a: Text, b: Text, k: nat) {
    k <= |a| && k < |b| && a[..k] == b[..k] && (k == |a| || a[k] < b[k])
  }

  function Strip(digits: Text): (s: Text)
    ensures |s| <= |digits| && s == digits[|digits| - |s|..] && (s != [] ==> s[0] != 48)
    ensures forall i | 0 <= i < |digits| - |s| :: digits[i] == 48
  {
    if digits != [] && digits[0] == 48 then Strip(digits[1..]) else digits
  }

  /** Apart from leading zeros the shorter run is smaller, and of equally long ones the one with the smaller first different digit. */
  ghost predicate SmallerRun(x: Text, y: Text) {
    var s, t := Strip(x), Strip(y);
    |s| < |t| || (|s| == |t| && exists k: nat :: FirstLess(s, t, k))
  }

  /** The digits of the largest number that `std::stoll` takes. */
  const MAX_DIGITS: Text := [57, 50, 50, 51, 51, 55, 50, 48, 51, 54, 56, 53, 52, 55, 55, 53, 56, 48, 55]

  ghost function BySight(a: Text, b: Text): Outcome
    decreases |a|
  {
    if a == [] || b == [] then Answer(if a != [] then 1 else if b != [] then -1 else 0)
    else if IsDigit(a[0]) && IsDigit(b[0]) then
      var x, y := a[..DigitRun(a)], b[..DigitRun(b)];
      if SmallerRun(MAX_DIGITS, x) || SmallerRun(MAX_DIGITS, y) then Threw
      else if SmallerRun(x, y) then Answer(-1)
      else if SmallerRun(y, x) then Answer(1)
      else BySight(a[DigitRun(a)..], b[DigitRun(b)..])
    else
      var c, d := SignedChar(ToLower(a[0])), SignedChar(ToLower(b[0]));
      if c != d then Answer(if c < d then -1 else 1) else BySight(a[1..], b[1..])
  }

  function Pow10(n: nat): (p: nat)
    ensures p > 0
  {
    if n == 0 then 1 else 10 * Pow10(n - 1)
  }

  lemma {:induction false} ValueBounds(x: Text)
    requires AllDigits(x)
    ensures Value(x) < Pow10(|x|) && (x != [] && x[0] != 48 ==> Value(x) >= Pow10(|x| - 1))
  {
    if x != [] {
      var init := x[..|x| - 1];
      ValueBounds(init);
      assert IsDigit(x[|x| - 1]) && IsDigit(x[0]);
      if |x| > 1 {
        assert init[0] == x[0];
      }
    }
  }

  lemma {:induction false} PowersGrow(m: nat, n: nat)
    requires m <= n
    ensures Pow10(m) <= Pow10(n)
  {
    if m < n {
      PowersGrow(m, n - 1);
    }
  }

  /** Of equally long runs the first different digit decides. */
  lemma {:induction false} FirstDigitDecides(x: Text, y: Text, k: nat)
    requires AllDigits(x) && AllDigits(y) && |x| == |y| && FirstLess(x, y, k)
    ensures Value(x) < Value(y)
  {
    var x', y' := x[..|x| - 1], y[..|y| - 1];
    assert IsDigit(x[|x| - 1]) && IsDigit(y[|y| - 1]);
    if k == |x| - 1 {
      assert x[..k] == x' && y[..k] == y';
    } else {
      assert x'[..k] == x[..k] && y'[..k] == y[..k];
      FirstDigitDecides(x', y', k);
    }
  }

  lemma {:induction false} ZerosDoNotCount(x: Text)
    requires AllDigits(x)
    ensures AllDigits(Strip(x)) && Value(Strip(x)) == Value(x)
  {
    if x != [] && x[0] == 48 {
      ZerosDoNotCount(x[1..]);
      LeadingZero(x);
    }
  }

  lemma {:induction false} LeadingZero(x: Text)
    requires AllDigits(x) && x != [] && x[0] == 48
    ensures Value(x[1..]) == Value(x)
  {
    if |x| > 1 {
      var init := x[..|x| - 1];
      LeadingZero(init);
      assert x[1..][..|x| - 2] == init[1..];
    } else {
      assert x[..0] == [] && x[1..] == [];
    }
  }

  lemma SmallerIsLess(x: Text, y: Text)
    requires AllDigits(x) && AllDigits(y) && SmallerRun(x, y)
    ensures Value(x) < Value(y)
  {
    hide Value, Pow10;
    var s, t := Strip(x), Strip(y);
    ZerosDoNotCount(x);
    ZerosDoNotCount(y);
    if |s| < |t| {
      ValueBounds(s);
      ValueBounds(t);
      PowersGrow(|s|, |t| - 1);
    } else {
      var k: nat :| FirstLess(s, t, k);
      FirstDigitDecides(s, t, k);
    }
  }

  lemma {:induction false} Trichotomy(a: Text, b: Text)
    ensures a == b || (exists k: nat :: FirstLess(a, b, k)) || exists k: nat :: FirstLess(b, a, k)
  {
    if a == [] || b == [] {
      assert b != [] ==> FirstLess(a, b, 0);
      assert a != [] ==> FirstLess(b, a, 0);
    } else if a[0] == b[0] {
      Trichotomy(a[1..], b[1..]);
      assert a == [a[0]] + a[1..] && b == [b[0]] + b[1..];
      if k: nat :| FirstLess(a[1..], b[1..], k) {
        OneFurther(a, b, k);
      }
      if k: nat :| FirstLess(b[1..], a[1..], k) {
        OneFurther(b, a, k);
      }
    } else {
      assert FirstLess(a, b, 0) || FirstLess(b, a, 0);
    }
  }

  lemma OneFurther(a: Text, b: Text, k: nat)
    requires a != [] && b != [] && a[0] == b[0] && FirstLess(a[1..], b[1..], k)
    ensures FirstLess(a, b, k + 1)
  {
    assert a[..k + 1] == [a[0]] + a[1..][..k] && b[..k + 1] == [b[0]] + b[1..][..k];
  }

  /** Runs of digits compare as the numbers they stand for. */
  lemma RunsCompare(x: Text, y: Text)
    requires AllDigits(x) && AllDigits(y)
    ensures SmallerRun(x, y) <==> Value(x) < Value(y)
  {
    hide Value;
    if SmallerRun(x, y) {
      SmallerIsLess(x, y);
    } else if SmallerRun(y, x) {
      SmallerIsLess(y, x);
    } else {
      ZerosDoNotCount(x);
      ZerosDoNotCount(y);
      Trichotomy(Strip(x), Strip(y));
    }
  }

  lemma NextDigit(x: Text, i: nat)
    requires AllDigits(x) && i < |x|
    ensures Value(x[..i + 1]) == 10 * Value(x[..i]) + x[i] - 48
  {
    assert x[..i + 1][..i] == x[..i];
  }

  lemma MaxDigitsAreMax()
    ensures AllDigits(MAX_DIGITS) && Value(MAX_DIGITS) == MAX_NUMBER
  {
    var m := MAX_DIGITS;
    assert m[..0] == [] && m[..19] == m;
    assert Value(m[..0]) == 0;
    hide Value;
    FiveDigits(m, 0);
    assert Value(m[..5]) == 92233;
    FiveDigits(m, 5);
    assert Value(m[..10]) == 9223372036;
    FiveDigits(m, 10);
    assert Value(m[..15]) == 922337203685477;
    NextDigit(m, 15);
    NextDigit(m, 16);
    NextDigit(m, 17);
    NextDigit(m, 18);
  }

  lemma FiveDigits(x: Text, i: nat)
    requires AllDigits(x) && i + 5 <= |x|
    ensures var a, b, c, d, e := x[i] as int, x[i + 1] as int, x[i + 2] as int, x[i + 3] as int, x[i + 4] as int;
      Value(x[..i + 5]) == 100000 * Value(x[..i]) + 10000 * a + 1000 * b + 100 * c + 10 * d + e - 533328
  {
    hide Value;
    NextDigit(x, i);
    NextDigit(x, i + 1);
    NextDigit(x, i + 2);
    NextDigit(x, i + 3);
    NextDigit(x, i + 4);
  }

  /** The code's comparison needs no numbers to be understood. */
  lemma {:induction false} SightIsExact(a: Text, b: Text)
    ensures NaturalCompare(a, b) == BySight(a, b)
    decreases |a|
  {
    hide NaturalCompare, Value, SmallerRun, Strip, Tokens;
    if a == [] || b == [] {
      EndStep(a, b);
    } else if IsDigit(a[0]) && IsDigit(b[0]) {
      var x, y := a[..DigitRun(a)], b[..DigitRun(b)];
      NumbersStep(a, b);
      MaxDigitsAreMax();
      RunsCompare(MAX_DIGITS, x);
      RunsCompare(MAX_DIGITS, y);
      RunsCompare(x, y);
      RunsCompare(y, x);
      SightIsExact(a[DigitRun(a)..], b[DigitRun(b)..]);
    } else {
      LettersStep(a, b);
      SightIsExact(a[1..], b[1..]);
    }
  }

  /** The other case of a letter, any other byte itself. */
  function OtherCase(c: Byte): Byte {
    if 65 <= c <= 90 then c + 32 else if 97 <= c <= 122 then c - 32 else c
  }

  /**
   Where not both names go on with a digit, bytes above 127 come first, a letter counts as its
   lower case, and otherwise the smaller byte decides.
   */
  lemma LettersBySight(a: Text, b: Text)
    requires a != [] && b != [] && !(IsDigit(a[0]) && IsDigit(b[0]))
    ensures var c, d := a[0], b[0];
      if c == d || c == OtherCase(d) then NaturalCompare(a, b) == NaturalCompare(a[1..], b[1..])
      else if (c >= 128) != (d >= 128) then NaturalCompare(a, b) == Answer(if c >= 128 then -1 else 1)
      else if c < d && !(65 <= c <= 90) && !(65 <= d <= 90) then NaturalCompare(a, b) == Answer(-1)
      else 65 <= c <= 90 ==> NaturalCompare(a, b) == NaturalCompare([OtherCase(c)] + a[1..], b)
  {
    hide NaturalCompare, Tokens;
    LettersStep(a, b);
    var a' := [OtherCase(a[0])] + a[1..];
    assert a'[1..] == a[1..];
    LettersStep(a', b);
  }

  /** Bytes compare by the first difference, and a beginning comes before its continuation. */
  lemma {:induction false} ByteOrderIsExact(a: Text, b: Text)
    ensures ByteOrder(a, b) < 0 <==> exists k: nat :: FirstLess(a, b, k)
    ensures ByteOrder(a, b) > 0 <==> exists k: nat :: FirstLess(b, a, k)
  {
    if a == [] || b == [] {
      assert b != [] ==> FirstLess(a, b, 0);
      assert a != [] ==> FirstLess(b, a, 0);
    } else if a[0] == b[0] {
      assert Codes(a)[1..] == Codes(a[1..]) && Codes(b)[1..] == Codes(b[1..]);
      ByteOrderIsExact(a[1..], b[1..]);
      SameStart(a, b);
      SameStart(b, a);
    } else {
      assert FirstLess(a, b, 0) <==> a[0] < b[0];
      assert FirstLess(b, a, 0) <==> b[0] < a[0];
      forall k: nat | FirstLess(a, b, k) || FirstLess(b, a, k)
        ensures k == 0 || a[0] == b[0]
      {
        StartDecides(a, b, k);
      }
    }
  }

  lemma StartDecides(a: Text, b: Text, k: nat)
    requires a != [] && b != [] && (FirstLess(a, b, k) || FirstLess(b, a, k))
    ensures k == 0 || a[0] == b[0]
  {
    if k > 0 {
      assert a[..k][0] == a[0] && b[..k][0] == b[0];
    }
  }

  lemma SameStart(a: Text, b: Text)
    requires a != [] && b != [] && a[0] == b[0]
    ensures (exists k: nat :: FirstLess(a, b, k)) <==> exists k: nat :: FirstLess(a[1..], b[1..], k)
  {
    if k: nat :| FirstLess(a[1..], b[1..], k) {
      OneFurther(a, b, k);
    }
    if k: nat :| FirstLess(a, b, k) {
      assert k > 0 && a[1..][..k - 1] == a[..k][1..] && b[1..][..k - 1] == b[..k][1..];
      assert FirstLess(a[1..], b[1..], k - 1);
    }
  }

  // ---------- The sorts built on it ----------

  datatype Collection = Collection(name: Text, numDocuments: int, createdAt: Text)
  datatype Document = Document(id: Text, title: Text, timestamp: int)

  function CollectionName(c: Collection): Text { c.name }
  function CollectionCount(c: Collection): int { c.numDocuments }
  function CollectionCreated(c: Collection): Text { c.createdAt }
  function DocumentId(d: Document): Text { d.id }
  function DocumentTitle(d: Document): Text { d.title }
  function DocumentTime(d: Document): int { d.timestamp }

  function IntOrder(x: int, y: int): int {
    if x < y then -1 else if x == y then 0 else 1
  }

  /** `std::string` compares bytes as unsigned values. */
  function ByteOrder(a: Text, b: Text): int {
    Lex(Codes(a), Codes(b))
  }

  function Codes(a: Text): seq<(int, int)> {
    seq(|a|, i requires 0 <= i < |a| => (a[i] as int, 0))
  }

  lemma ByteOrderPreorder()
    ensures Preorder(ByteOrder)
  {
    hide Codes, Lex;
    LexPreorder();
  }

  lemma ByteOrderZero(a: Text, b: Text)
    ensures ByteOrder(a, b) == 0 <==> a == b
  {
    LexZero(Codes(a), Codes(b));
    if Codes(a) == Codes(b) {
      assert |a| == |Codes(a)| == |b|;
      assert forall i | 0 <= i < |a| :: a[i] == Codes(a)[i].0 == b[i];
    }
  }

  /** What a less-than lambda does: an exception from the comparison escapes it. */
  datatype Less = Failed | Is(less: bool)

  function NegativeName(o: Outcome): Less {
    match o
    case Threw => Failed
    case Answer(c) => Is(c < 0)
  }

  function LessByName(a: Text, b: Text, descending: bool): Less {
    match NaturalCompare(a, b)
    case Threw => Failed
    case Answer(c) => Is(if descending then c > 0 else c < 0)
  }

  function LessByCount(a: Collection, b: Collection, descending: bool): Less {
    if a.numDocuments == b.numDocuments then NegativeName(NaturalCompare(a.name, b.name))
    else Is(if descending then a.numDocuments > b.numDocuments else a.numDocuments < b.numDocuments)
  }

  function LessByCreated(a: Collection, b: Collection, descending: bool): Less {
    if a.createdAt == b.createdAt then NegativeName(NaturalCompare(a.name, b.name))
    else Is(if descending then ByteOrder(a.createdAt, b.createdAt) > 0 else ByteOrder(a.createdAt, b.createdAt) < 0)
  }

  function LessByTimestamp(a: Document, b: Document, descending: bool): Less {
    if a.timestamp != b.timestamp then Is(if descending then a.timestamp > b.timestamp else a.timestamp < b.timestamp)
    else
      match NaturalCompare(a.id, b.id)
      case Threw => Failed
      case Answer(c) => if c != 0 then Is(c < 0) else NegativeName(NaturalCompare(a.title, b.title))
  }

  function NameSort(descending: bool): (Text, Text) -> int {
    Reverse(NameOrder, descending)
  }

  function CountSort(descending: bool): (Collection, Collection) -> int {
    Then(Reverse(On(IntOrder, CollectionCount), descending), On(NameOrder, CollectionName))
  }

  function CreatedSort(descending: bool): (Collection, Collection) -> int {
    Then(Reverse(On(ByteOrder, CollectionCreated), descending), On(NameOrder, CollectionName))
  }

  function TimestampSort(descending: bool): (Document, Document) -> int {
    Then(Reverse(On(IntOrder, DocumentTime), descending),
         Then(On(NameOrder, DocumentId), On(NameOrder, DocumentTitle)))
  }

  lemma SortsArePreorders(descending: bool)
    ensures Preorder(NameSort(descending)) && Preorder(CountSort(descending))
    ensures Preorder(CreatedSort(descending)) && Preorder(TimestampSort(descending))
  {
    hide NameOrder, ByteOrder;
    NameOrderPreorder();
    ByteOrderPreorder();
    assert Preorder(IntOrder);
    ReversePreorder(NameOrder, descending);
    OnPreorder(NameOrder, CollectionName);
    OnPreorder(IntOrder, CollectionCount);
    ReversePreorder(On(IntOrder, CollectionCount), descending);
    ThenPreorder(Reverse(On(IntOrder, CollectionCount), descending), On(NameOrder, CollectionName));
    OnPreorder(ByteOrder, CollectionCreated);
    ReversePreorder(On(ByteOrder, CollectionCreated), descending);
    ThenPreorder(Reverse(On(ByteOrder, CollectionCreated), descending), On(NameOrder, CollectionName));
    OnPreorder(IntOrder, DocumentTime);
    ReversePreorder(On(IntOrder, DocumentTime), descending);
    OnPreorder(NameOrder, DocumentId);
    OnPreorder(NameOrder, DocumentTitle);
    ThenPreorder(On(NameOrder, DocumentId), On(NameOrder, DocumentTitle));
    ThenPreorder(Reverse(On(IntOrder, DocumentTime), descending),
                 Then(On(NameOrder, DocumentId), On(NameOrder, DocumentTitle)));
  }

  /** All sorts are strict weak orders, upwards and downwards. */
  lemma SortsAreStrictWeak(descending: bool)
    ensures StrictWeak(Before(NameSort(descending))) && StrictWeak(Before(CountSort(descending)))
    ensures StrictWeak(Before(CreatedSort(descending))) && StrictWeak(Before(TimestampSort(descending)))
  {
    hide NameSort, CountSort, CreatedSort, TimestampSort;
    SortsArePreorders(descending);
    PreorderIsStrictWeak(NameSort(descending));
    PreorderIsStrictWeak(CountSort(descending));
    PreorderIsStrictWeak(CreatedSort(descending));
    PreorderIsStrictWeak(TimestampSort(descending));
  }

  lemma SortAt<S, T>(cmp: (T, T) -> int, key: S -> T, descending: bool, ties: (S, S) -> int, a: S, b: S)
    ensures var c := cmp(key(a), key(b));
            Then(Reverse(On(cmp, key), descending), ties)(a, b) ==
            if c == 0 then ties(a, b) else if descending then -c else c
  {
    assert On(cmp, key)(a, b) == cmp(key(a), key(b));
  }

  /** On names without oversized numbers the lambdas are those orders. */
  lemma CollectionLambdasAgree(a: Collection, b: Collection, descending: bool)
    requires Sortable(a.name) && Sortable(b.name)
    ensures LessByName(a.name, b.name, descending) == Is(Before(NameSort(descending))(a.name, b.name))
    ensures LessByCount(a, b, descending) == Is(Before(CountSort(descending))(a, b))
    ensures LessByCreated(a, b, descending) == Is(Before(CreatedSort(descending))(a, b))
  {
    hide Lex, Ranks, Tokens, Codes, TokenOrder;
    SortableNeverThrows(a.name, b.name);
    ByteOrderZero(a.createdAt, b.createdAt);
    SortAt(IntOrder, CollectionCount, descending, On(NameOrder, CollectionName), a, b);
    SortAt(ByteOrder, CollectionCreated, descending, On(NameOrder, CollectionName), a, b);
    assert On(NameOrder, CollectionName)(a, b) == NameOrder(a.name, b.name);
  }

  lemma DocumentLambdaAgrees(a: Document, b: Document, descending: bool)
    requires Sortable(a.id) && Sortable(b.id) && Sortable(a.title) && Sortable(b.title)
    ensures LessByTimestamp(a, b, descending) == Is(Before(TimestampSort(descending))(a, b))
  {
    hide Lex, Ranks, Tokens, TokenOrder;
    SortableNeverThrows(a.id, b.id);
    SortableNeverThrows(a.title, b.title);
    var ties := Then(On(NameOrder, DocumentId), On(NameOrder, DocumentTitle));
    SortAt(IntOrder, DocumentTime, descending, ties, a, b);
    assert On(NameOrder, DocumentId)(a, b) == NameOrder(a.id, b.id);
    assert On(NameOrder, DocumentTitle)(a, b) == NameOrder(a.title, b.title);
  }

  // ---------- What sorting and paging promise ----------

  predicate Sorted<T>(s: seq<T>, cmp: (T, T) -> int) {
    forall i, j | 0 <= i < j < |s| :: cmp(s[i], s[j]) <= 0
  }

  ghost predicate Arranges<T>(s: seq<T>, all: multiset<T>, cmp: (T, T) -> int) {
    multiset(s) == all && Sorted(s, cmp)
  }

  /** No two entries are equal for the sort. */
  ghost predicate Told<T(!new)>(all: multiset<T>, cmp: (T, T) -> int) {
    forall x, y | x in all && y in all && cmp(x, y) == 0 :: x == y
  }

  lemma Turns<T(!new)>(cmp: (T, T) -> int, x: T, y: T)
    requires Preorder(cmp)
    ensures cmp(x, y) == -cmp(y, x)
  {
  }

  lemma HeadIsLeast<T(!new)>(s: seq<T>, x: T, cmp: (T, T) -> int)
    requires Preorder(cmp) && Sorted(s, cmp) && x in s
    ensures cmp(s[0], x) <= 0
  {
    hide Preorder;
    Turns(cmp, x, x);
    var i :| 0 <= i < |s| && s[i] == x;
  }

  lemma TailArranges<T(!new)>(s: seq<T>, all: multiset<T>, cmp: (T, T) -> int)
    requires Arranges(s, all, cmp) && s != []
    ensures s[0] in all && Arranges(s[1..], all - multiset{s[0]}, cmp)
  {
    assert s == [s[0]] + s[1..];
    assert s[0] in multiset(s);
  }

  lemma {:induction false} OneArrangement<T(!new)>(s: seq<T>, t: seq<T>, all: multiset<T>, cmp: (T, T) -> int)
    requires Preorder(cmp) && Told(all, cmp) && Arranges(s, all, cmp) && Arranges(t, all, cmp)
    ensures s == t
    decreases |s|
  {
    hide Preorder, Sorted;
    assert |s| == |all| == |t|;
    if s != [] {
      var x, y := s[0], t[0];
      TailArranges(s, all, cmp);
      TailArranges(t, all, cmp);
      assert x == y by {
        assert x in multiset(t) && y in multiset(s);
        HeadIsLeast(t, x, cmp);
        HeadIsLeast(s, y, cmp);
        Turns(cmp, x, y);
      }
      assert Told(all - multiset{x}, cmp);
      OneArrangement(s[1..], t[1..], all - multiset{x}, cmp);
      assert s == [x] + s[1..] && t == [x] + t[1..];
    }
  }

  /** Exchanging two entries that are equal for the sort keeps it sorted. */
  lemma Exchange<T(!new)>(s: seq<T>, i: nat, j: nat, cmp: (T, T) -> int)
    requires Preorder(cmp) && Sorted(s, cmp) && i < j < |s| && cmp(s[i], s[j]) == 0
    ensures Sorted(s[i := s[j]][j := s[i]], cmp)
    ensures multiset(s[i := s[j]][j := s[i]]) == multiset(s)
  {
    var t := s[i := s[j]][j := s[i]];
    assert cmp(s[j], s[i]) == 0;
    forall k | 0 <= k < |s|
      ensures k < j ==> cmp(s[k], s[i]) <= 0
      ensures k > i ==> cmp(s[j], s[k]) <= 0
    {
      assert k < j ==> cmp(s[k], s[j]) <= 0;
      assert k > i ==> cmp(s[i], s[k]) <= 0;
    }
  }

  /**
   The listing is determined by its contents exactly when no two entries are equal for the
   sort; otherwise the unstable sort may show them in either order.
   */
  lemma ListingIsDetermined<T(!new)>(s: seq<T>, cmp: (T, T) -> int)
    requires Preorder(cmp) && Sorted(s, cmp)
    ensures Told(multiset(s), cmp) <==> forall t | Arranges(t, multiset(s), cmp) :: t == s
  {
    hide Preorder, Sorted;
    if Told(multiset(s), cmp) {
      forall t | Arranges(t, multiset(s), cmp)
        ensures t == s
      {
        OneArrangement(s, t, multiset(s), cmp);
      }
    } else {
      var x, y :| x in multiset(s) && y in multiset(s) && cmp(x, y) == 0 && x != y;
      var i :| 0 <= i < |s| && s[i] == x;
      var j :| 0 <= j < |s| && s[j] == y;
      Turns(cmp, x, y);
      TwoArrangements(s, if i < j then i else j, if i < j then j else i, cmp);
    }
  }

  lemma TwoArrangements<T(!new)>(s: seq<T>, i: nat, j: nat, cmp: (T, T) -> int)
    requires Preorder(cmp) && Sorted(s, cmp) && i < j < |s| && cmp(s[i], s[j]) == 0 && s[i] != s[j]
    ensures exists t :: Arranges(t, multiset(s), cmp) && t != s
  {
    hide Preorder, Sorted;
    Exchange(s, i, j, cmp);
    var t := s[i := s[j]][j := s[i]];
    assert t[i] != s[i];
    assert Arranges(t, multiset(s), cmp);
  }

  /** Offset and limit of a request; a limit of zero means no limit. */
  function Page<T>(s: seq<T>, offset: nat, limit: nat): seq<T> {
    var start := if offset < |s| then offset else |s|;
    var end := if limit > 0 && start + limit < |s| then start + limit else |s|;
    s[start..end]
  }

  /** A page starts at the offset and has as many entries as the limit says and there are. */
  lemma PageIsExact<T>(s: seq<T>, offset: nat, limit: nat)
    ensures var p, left := Page(s, offset, limit), if offset < |s| then |s| - offset else 0;
      && |p| == (if limit == 0 || left < limit then left else limit)
      && forall i | 0 <= i < |p| :: p[i] == s[offset + i]
  {
  }

  function Pages<T>(s: seq<T>, offset: nat, limit: nat, count: nat): seq<T>
    requires limit > 0
    decreases count
  {
    if count == 0 then [] else Page(s, offset, limit) + Pages(s, offset + limit, limit, count - 1)
  }

  /** Reading page after page returns every entry once, in order. */
  lemma {:induction false} PagesCover<T>(s: seq<T>, offset: nat, limit: nat, count: nat)
    requires limit > 0 && offset <= |s| && offset + count * limit >= |s|
    ensures Pages(s, offset, limit, count) == s[offset..]
    decreases count
  {
    if count > 0 {
      if offset + limit <= |s| {
        assert count * limit == limit + (count - 1) * limit;
        PagesCover(s, offset + limit, limit, count - 1);
      } else {
        PastEnd(s, offset + limit, limit, count - 1);
      }
    }
  }

  lemma {:induction false} PastEnd<T>(s: seq<T>, offset: nat, limit: nat, count: nat)
    requires limit > 0 && offset >= |s|
    ensures Pages(s, offset, limit, count) == []
    decreases count
  {
    if count > 0 {
      PastEnd(s, offset + limit, limit, count - 1);
    }
  }
}
