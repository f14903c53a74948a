/**
 Byte routines that work on 32 lanes at a time. `mem` is the memory behind a pointer: the text
 occupies its beginning, and the vector loads may look at arbitrary bytes past its end.
 */
module Simd {

  import opened BitMask

  type Byte = b: int | 0 <= b < 256
  type Bytes = seq<Byte>

  // ---------- Lanes ----------

  /** Lane-wise equality of two blocks of 32 bytes. */
  function EqualLanes(x: Bytes, y: Bytes): (bits: seq<bool>)
    requires |x| == |y| == LANES
    ensures |bits| == LANES && forall i | 0 <= i < LANES :: bits[i] == (x[i] == y[i])
  {
    seq(LANES, i requires 0 <= i < LANES => x[i] == y[i])
  }

  function Broadcast(b: Byte): (x: Bytes)
    ensures |x| == LANES && forall i | 0 <= i < LANES :: x[i] == b
  {
    seq(LANES, _ => b)
  }

  /** All bits of the mask are set exactly when the blocks are equal. */
  lemma FullMask(x: Bytes, y: Bytes)
    requires |x| == |y| == LANES
    ensures Pack(EqualLanes(x, y)) == 0xFFFF_FFFF <==> x == y
  {
    FullWord();
    PackBound(EqualLanes(x, y));
    assert (forall i | 0 <= i < LANES :: x[i] == y[i]) <==> x == y;
  }

  /** The lowest bit of the complement is the first lane that differs. */
  lemma FirstDifference(x: Bytes, y: Bytes)
    requires |x| == |y| == LANES && x != y
    ensures var m := 0xFFFF_FFFF - Pack(EqualLanes(x, y));
            && m > 0 && TrailingZeros(m) < LANES
            && x[TrailingZeros(m)] != y[TrailingZeros(m)]
            && x[..TrailingZeros(m)] == y[..TrailingZeros(m)]
  {
    var bits := EqualLanes(x, y);
    var flipped := seq(|bits|, i requires 0 <= i < |bits| => !bits[i]);
    FullWord();
    PackComplement(bits);
    assert FirstSet(flipped) < LANES by {
      assert exists i :: 0 <= i < LANES && x[i] != y[i];
      var i :| 0 <= i < LANES && x[i] != y[i];
      assert flipped[i];
    }
    LowestIsFirst(flipped);
    var k := FirstSet(flipped);
    assert flipped[k] && !bits[k];
    forall i | 0 <= i < k
      ensures x[i] == y[i]
    {
      assert !flipped[i] && bits[i];
    }
  }

  // ---------- Equality ----------

  method FastStringEqual(a: Bytes, b: Bytes, len: nat) returns (r: bool)
    requires len <= |a| && len <= |b|
    ensures r == (a[..len] == b[..len])
  {
    hide Pack, EqualLanes;
    var i := 0;
    while i + LANES <= len
      invariant i <= len && a[..i] == b[..i]
    {
      var x, y := a[i..i + LANES], b[i..i + LANES];
      FullMask(x, y);
      if Pack(EqualLanes(x, y)) != 0xFFFF_FFFF {
        assert x == a[..len][i..i + LANES] && y == b[..len][i..i + LANES];
        return false;
      }
      assert a[..i + LANES] == a[..i] + x && b[..i + LANES] == b[..i] + y;
      i := i + LANES;
    }
    while i < len
      invariant i <= len && a[..i] == b[..i]
    {
      if a[i] != b[i] {
        assert a[..len][i] != b[..len][i];
        return false;
      }
      i := i + 1;
    }
    return true;
  }

  // ---------- Search ----------

  predicate Occurs(text: Bytes, needle: Bytes, i: int) {
    0 <= i && i + |needle| <= |text| && text[i..i + |needle|] == needle
  }

  /** The position of the leftmost occurrence, or -1 when there is none. */
  ghost predicate Leftmost(text: Bytes, needle: Bytes, r: int) {
    if r == -1 then forall i :: !Occurs(text, needle, i)
    else Occurs(text, needle, r) && forall i | i < r :: !Occurs(text, needle, i)
  }

  lemma LeftmostIsUnique(text: Bytes, needle: Bytes, r: int, q: int)
    requires Leftmost(text, needle, r) && Leftmost(text, needle, q)
    ensures r == q
  {
  }

  lemma OccurrenceStarts(text: Bytes, needle: Bytes, i: int)
    requires needle != [] && Occurs(text, needle, i)
    ensures text[i] == needle[0]
  {
    assert text[i..i + |needle|][0] == text[i];
  }

  /** The one-byte form of the search. */
  method PlainSearch(text: Bytes, needle: Bytes) returns (r: int)
    ensures Leftmost(text, needle, r)
  {
    if needle == [] {
      assert Occurs(text, needle, 0);
      return 0;
    }
    if |needle| > |text| {
      return -1;
    }
    for i := 0 to |text| - |needle| + 1
      invariant forall k | k < i :: !Occurs(text, needle, k)
    {
      if text[i] == needle[0] {
        var same := FastStringEqual(text[i..], needle, |needle|);
        assert text[i..][..|needle|] == text[i..i + |needle|] && needle[..|needle|] == needle;
        if same {
          return i;
        }
      } else if Occurs(text, needle, i) {
        OccurrenceStarts(text, needle, i);
      }
    }
    return -1;
  }

  /** The lanes of a block that hold the first byte of the needle, from lane `p` on. */
  predicate Candidates(mem: Bytes, first: Byte, i: nat, bits: seq<bool>, p: nat)
    requires i + LANES <= |mem|
  {
    |bits| == LANES && forall k | 0 <= k < LANES :: bits[k] == (k >= p && mem[i + k] == first)
  }

  /** One block: the leftmost occurrence that starts in it, or -1. */
  method SearchBlock(mem: Bytes, len: nat, needle: Bytes, i: nat) returns (r: int)
    requires needle != [] && len <= |mem| && i + LANES <= |mem|
    ensures r == -1 ==> forall k | i <= k < i + LANES :: !Occurs(mem[..len], needle, k)
    ensures r != -1 ==> i <= r && Occurs(mem[..len], needle, r)
    ensures r != -1 ==> forall k | i <= k < r :: !Occurs(mem[..len], needle, k)
  {
    var lanes := EqualLanes(mem[i..i + LANES], Broadcast(needle[0]));
    var mask := Pack(lanes);
    ghost var bits, p := lanes, 0;
    while mask != 0
      invariant 0 <= p <= LANES && Candidates(mem, needle[0], i, bits, p) && mask == Pack(bits)
      invariant forall k | i <= k < i + p :: !Occurs(mem[..len], needle, k)
      decreases mask
    {
      PackIsZero(bits);
      LowestIsFirst(bits);
      ClearFirst(bits);
      var pos := TrailingZeros(mask);
      NoneBetween(mem, len, needle, i, bits, p);
      if i + pos + |needle| <= len {
        var same := FastStringEqual(mem[i + pos..], needle, |needle|);
        assert mem[i + pos..][..|needle|] == mem[..len][i + pos..i + pos + |needle|] && needle[..|needle|] == needle;
        if same {
          return i + pos;
        }
      }
      mask := Clear(mask);
      bits, p := bits[pos := false], pos + 1;
    }
    PackIsZero(bits);
    NoneBetween(mem, len, needle, i, bits, p);
    return -1;
  }

  lemma NoneBetween(mem: Bytes, len: nat, needle: Bytes, i: nat, bits: seq<bool>, p: nat)
    requires needle != [] && len <= |mem| && i + LANES <= |mem| && p <= LANES
    requires Candidates(mem, needle[0], i, bits, p)
    requires forall k | i <= k < i + p :: !Occurs(mem[..len], needle, k)
    ensures p <= FirstSet(bits)
    ensures forall k | i <= k < i + FirstSet(bits) :: !Occurs(mem[..len], needle, k)
  {
    assert FirstSet(bits) < LANES ==> bits[FirstSet(bits)];
    forall k | i <= k < i + FirstSet(bits)
      ensures !Occurs(mem[..len], needle, k)
    {
      if k >= i + p {
        assert !bits[k - i];
        if Occurs(mem[..len], needle, k) {
          OccurrenceStarts(mem[..len], needle, k);
        }
      }
    }
  }

  /** The vector search finds what the one-byte form finds, whatever follows the text. */
  method FastStringSearch(mem: Bytes, len: nat, needle: Bytes) returns (r: int)
    requires len + LANES - 1 <= |mem|
    ensures Leftmost(mem[..len], needle, r)
  {
    if needle == [] {
      assert Occurs(mem[..len], needle, 0);
      return 0;
    }
    if |needle| > len {
      return -1;
    }
    var i := 0;
    while i <= len - |needle|
      invariant 0 <= i && forall k | k < i :: !Occurs(mem[..len], needle, k)
    {
      r := SearchBlock(mem, len, needle, i);
      if r != -1 {
        return r;
      }
      i := i + LANES;
    }
    return -1;
  }

  // ---------- Comparison ----------

  function Sign(n: int): int {
    if n < 0 then -1 else if n == 0 then 0 else 1
  }

  /** Lexicographic order of unsigned bytes; a proper prefix comes first. */
  function Order(a: Bytes, b: Bytes): int {
    if a == [] || b == [] then Sign(|a| - |b|)
    else if a[0] != b[0] then Sign(a[0] as int - b[0] as int)
    else Order(a[1..], b[1..])
  }

  /** The first place where the texts differ is `k`, and there `a` is smaller or at its end. */
  predicate FirstLess(a: Bytes, b: Bytes, k: nat) {
    k <= |a| && k < |b| && a[..k] == b[..k] && (k == |a| || a[k] < b[k])
  }

  ghost predicate Before(a: Bytes, b: Bytes) {
    exists k: nat :: FirstLess(a, b, k)
  }

  lemma {:induction false} OrderIsExact(a: Bytes, b: Bytes)
    ensures (Order(a, b) < 0 <==> Before(a, b)) && (Order(a, b) > 0 <==> Before(b, a)) && (Order(a, b) == 0 <==> a == b)
  {
    if a == [] || b == [] {
      assert b != [] ==> FirstLess(a, b, 0);
      assert a != [] ==> FirstLess(b, a, 0);
    } else {
      assert a == [a[0]] + a[1..] && b == [b[0]] + b[1..];
      StartDecides(a, b);
      StartDecides(b, a);
      if a[0] == b[0] {
        OrderIsExact(a[1..], b[1..]);
      }
    }
  }

  lemma StartDecides(a: Bytes, b: Bytes)
    requires a != [] && b != []
    ensures Before(a, b) <==> a[0] < b[0] || (a[0] == b[0] && Before(a[1..], b[1..]))
  {
    if k: nat :| FirstLess(a, b, k) {
      if k > 0 {
        assert a[..k][0] == a[0] && b[..k][0] == b[0];
        assert a[1..][..k - 1] == a[..k][1..] && b[1..][..k - 1] == b[..k][1..];
        assert FirstLess(a[1..], b[1..], k - 1);
      }
    }
    if a[0] < b[0] {
      assert FirstLess(a, b, 0);
    }
    if a[0] == b[0] && Before(a[1..], b[1..]) {
      var k: nat :| FirstLess(a[1..], b[1..], k);
      assert a[..k + 1] == [a[0]] + a[1..][..k] && b[..k + 1] == [b[0]] + b[1..][..k];
      assert FirstLess(a, b, k + 1);
    }
  }

  /** A length cast to a 32-bit `int`. */
  function ToInt32(n: nat): (r: int)
    ensures -0x8000_0000 <= r < 0x8000_0000 && (r - n) % 0x1_0000_0000 == 0
  {
    var low := n % 0x1_0000_0000;
    if low < 0x8000_0000 then low else low - 0x1_0000_0000
  }

  /** A difference of two `int` values; beyond the range of `int` the language leaves it undefined. */
  datatype Difference = Undefined | Value(n: int)

  function SubtractInt(a: int, b: int): Difference {
    if -0x8000_0000 <= a - b <= 0x7FFF_FFFF then Value(a - b) else Undefined
  }

  lemma {:induction false} OrderSkips(a: Bytes, b: Bytes, k: nat)
    requires k <= |a| && k <= |b| && a[..k] == b[..k]
    ensures Order(a, b) == Order(a[k..], b[k..])
  {
    if k > 0 {
      assert a[..k][0] == b[..k][0];
      assert a[1..][..k - 1] == a[..k][1..] && b[1..][..k - 1] == b[..k][1..];
      OrderSkips(a[1..], b[1..], k - 1);
      assert a[1..][k - 1..] == a[k..] && b[1..][k - 1..] == b[k..];
    } else {
      assert a[0..] == a && b[0..] == b;
    }
  }

  /** Whole blocks: up to the first that differs, whose difference decides. */
  method CompareBlocks(a: Bytes, b: Bytes) returns (i: nat, decided: bool, diff: int)
    ensures i <= |a| && i <= |b| && a[..i] == b[..i]
    ensures decided ==> !(a <= b) && !(b <= a) && Sign(diff) == Order(a, b)
  {
    hide Order, Pack, EqualLanes, TrailingZeros;
    i := 0;
    while i + LANES <= |a| && i + LANES <= |b|
      invariant i <= |a| && i <= |b| && a[..i] == b[..i]
      decreases |a| - i
    {
      var x, y := a[i..i + LANES], b[i..i + LANES];
      FullMask(x, y);
      var mask := Pack(EqualLanes(x, y));
      if mask != 0xFFFF_FFFF {
        BlockDiffers(a, b, i);
        var d := TrailingZeros(0xFFFF_FFFF - mask);
        return i, true, a[i + d] as int - b[i + d] as int;
      }
      assert a[..i + LANES] == a[..i] + x && b[..i + LANES] == b[..i] + y;
      i := i + LANES;
    }
    return i, false, 0;
  }

  /** A byte difference, or the difference of the lengths cast to `int`. */
  method FastStringCompare(a: Bytes, b: Bytes) returns (r: Difference)
    ensures if a <= b || b <= a then r == SubtractInt(ToInt32(|a|), ToInt32(|b|)) else r.Value? && Sign(r.n) == Order(a, b)
    ensures |a| < 0x8000_0000 && |b| < 0x8000_0000 ==>
      r.Value? && (r.n < 0 <==> Before(a, b)) && (r.n > 0 <==> Before(b, a)) && (r.n == 0 <==> a == b)
  {
    OrderIsExact(a, b);
    hide Order, Before;
    var i, decided, d := CompareBlocks(a, b);
    if decided {
      return Value(d);
    }
    while i < |a| && i < |b|
      invariant i <= |a| && i <= |b| && a[..i] == b[..i]
      decreases |a| - i
    {
      var diff: int := a[i] as int - b[i] as int;
      if diff != 0 {
        Differs(a, b, i);
        return Value(diff);
      }
      i := i + 1;
    }
    PrefixOrder(a, b);
    return SubtractInt(ToInt32(|a|), ToInt32(|b|));
  }

  lemma BlockDiffers(a: Bytes, b: Bytes, i: nat)
    requires i + LANES <= |a| && i + LANES <= |b| && a[..i] == b[..i] && a[i..i + LANES] != b[i..i + LANES]
    ensures var m := 0xFFFF_FFFF - Pack(EqualLanes(a[i..i + LANES], b[i..i + LANES]));
            && m > 0 && TrailingZeros(m) < LANES
            && var k := i + TrailingZeros(m);
               Order(a, b) == Sign(a[k] as int - b[k] as int)
    ensures !(a <= b) && !(b <= a)
  {
    hide Order, Pack, EqualLanes, TrailingZeros;
    var x, y := a[i..i + LANES], b[i..i + LANES];
    FirstDifference(x, y);
    var d := TrailingZeros(0xFFFF_FFFF - Pack(EqualLanes(x, y)));
    assert a[..i + d] == a[..i] + x[..d] && b[..i + d] == b[..i] + y[..d];
    Differs(a, b, i + d);
  }

  lemma Differs(a: Bytes, b: Bytes, k: nat)
    requires k < |a| && k < |b| && a[..k] == b[..k] && a[k] != b[k]
    ensures Order(a, b) == Sign(a[k] as int - b[k] as int)
    ensures !(a <= b) && !(b <= a)
  {
    OrderSkips(a, b, k);
  }

  /** When one text starts with the other, the lengths decide. */
  lemma PrefixOrder(a: Bytes, b: Bytes)
    requires var min := if |a| < |b| then |a| else |b|; a[..min] == b[..min]
    ensures (a <= b || b <= a) && Order(a, b) == Sign(|a| - |b|)
  {
    var min := if |a| < |b| then |a| else |b|;
    assert if |a| < |b| then a[..min] == a else b[..min] == b;
    OrderSkips(a, b, min);
  }

  /** Below 4 GiB the cast lengths order two texts right exactly when both or neither are below 2 GiB. */
  lemma CastLengthsOrder(m: nat, n: nat)
    requires m < 0x1_0000_0000 && n < 0x1_0000_0000
    ensures var d := SubtractInt(ToInt32(m), ToInt32(n));
            d.Value? && (d.n < 0 <==> m < n) && (d.n > 0 <==> m > n) <==> (m < 0x8000_0000 <==> n < 0x8000_0000)
    ensures m < 0x8000_0000 <= n ==> (SubtractInt(ToInt32(m), ToInt32(n)).Value? <==> n - m > 0x8000_0000)
    ensures n < 0x8000_0000 <= m ==> (SubtractInt(ToInt32(m), ToInt32(n)).Value? <==> m - n >= 0x8000_0000)
  {
  }

  // ---------- Lower case ----------

  function SignedByte(b: Byte): int {
    if b >= 128 then b - 256 else b
  }

  /** One lane: 32 is added where both signed comparisons hold. */
  function LowerLane(b: Byte): Byte {
    if SignedByte(b) > 64 && 91 > SignedByte(b) then (b + 32) % 256 else b
  }

  predicate IsUpper(b: Byte) {
    65 <= b <= 90
  }

  function Lowered(s: Bytes): (t: Bytes)
    ensures |t| == |s|
    ensures forall i | 0 <= i < |s| :: !IsUpper(t[i]) && (t[i] == if IsUpper(s[i]) then s[i] + 32 else s[i])
  {
    seq(|s|, i requires 0 <= i < |s| => if IsUpper(s[i]) then s[i] + 32 else s[i])
  }

  /** In place: blocks of lanes first, then the remaining bytes. */
  method FastToLowercase(str: array<Byte>, len: nat)
    requires len <= str.Length
    modifies str
    ensures str[..len] == Lowered(old(str[..len])) && str[len..] == old(str[len..])
    ensures forall i | 0 <= i < len :: str[i] == if 'A' as int <= old(str[i]) <= 'Z' as int then old(str[i]) + 32 else old(str[i])
  {
    var i := 0;
    while i + LANES <= len
      invariant 0 <= i <= len
      invariant forall k | 0 <= k < str.Length :: str[k] == if k < i then LowerLane(old(str[k])) else old(str[k])
    {
      forall k | i <= k < i + LANES {
        str[k] := LowerLane(str[k]);
      }
      i := i + LANES;
    }
    while i < len
      invariant 0 <= i <= len
      invariant forall k | 0 <= k < str.Length :: str[k] == if k < i then LowerLane(old(str[k])) else old(str[k])
    {
      if SignedByte(str[i]) >= 65 && SignedByte(str[i]) <= 90 {
        str[i] := str[i] + 32;
      }
      i := i + 1;
    }
  }
}
