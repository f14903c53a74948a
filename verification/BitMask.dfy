/**
 The masks of the vector routines: lane `k` of a comparison is bit `k` of a word. Words are
 unsigned here; taking one from the lowest negative `int` wraps as it does in the machine.
 */
module BitMask {

  const LANES := 32

  /** The word with the given bits, bit 0 first. */
  function Pack(bits: seq<bool>): nat {
    if bits == [] then 0 else (if bits[0] then 1 else 0) + 2 * Pack(bits[1..])
  }

  function And(a: nat, b: nat): nat {
    if a == 0 || b == 0 then 0 else (a % 2) * (b % 2) + 2 * And(a / 2, b / 2)
  }

  /** Number of zero bits below the lowest one. */
  function TrailingZeros(m: nat): nat
    requires m > 0
  {
    if m % 2 == 1 then 0 else 1 + TrailingZeros(m / 2)
  }

  /** The step that clears the lowest set bit. */
  function Clear(m: nat): nat
    requires m > 0
  {
    And(m, m - 1)
  }

  /** The first set bit, or the length. */
  function FirstSet(bits: seq<bool>): (k: nat)
    ensures k <= |bits| && (k < |bits| ==> bits[k]) && forall i | 0 <= i < k :: !bits[i]
  {
    if bits == [] || bits[0] then 0 else 1 + FirstSet(bits[1..])
  }

  lemma {:induction false} AndSelf(m: nat)
    ensures And(m, m) == m
  {
    if m > 0 {
      AndSelf(m / 2);
    }
  }

  lemma {:induction false} PackIsZero(bits: seq<bool>)
    ensures Pack(bits) == 0 <==> FirstSet(bits) == |bits|
  {
    if bits != [] && !bits[0] {
      PackIsZero(bits[1..]);
    }
  }

  lemma {:induction false} LowestIsFirst(bits: seq<bool>)
    requires FirstSet(bits) < |bits|
    ensures Pack(bits) > 0 && TrailingZeros(Pack(bits)) == FirstSet(bits)
  {
    if !bits[0] {
      LowestIsFirst(bits[1..]);
      assert Pack(bits) / 2 == Pack(bits[1..]);
    }
  }

  lemma {:induction false} ClearFirst(bits: seq<bool>)
    requires FirstSet(bits) < |bits|
    ensures Pack(bits) > 0 && Clear(Pack(bits)) == Pack(bits[FirstSet(bits) := false])
    ensures Clear(Pack(bits)) < Pack(bits)
  {
    var m, tail := Pack(bits), bits[1..];
    if bits[0] {
      AndSelf(Pack(tail));
      assert m / 2 == Pack(tail) && (m - 1) / 2 == Pack(tail);
      assert bits[0 := false][1..] == tail;
    } else {
      ClearFirst(tail);
      assert m / 2 == Pack(tail) && (m - 1) / 2 == Pack(tail) - 1;
      assert bits[FirstSet(bits) := false][1..] == tail[FirstSet(tail) := false];
    }
  }

  /** Powers of two, for the word with all bits set. */
  function Power(n: nat): (p: nat)
    ensures p > 0
  {
    if n == 0 then 1 else 2 * Power(n - 1)
  }

  lemma {:induction false} PackBound(bits: seq<bool>)
    ensures Pack(bits) < Power(|bits|)
    ensures Pack(bits) == Power(|bits|) - 1 <==> forall i | 0 <= i < |bits| :: bits[i]
  {
    if bits != [] {
      PackBound(bits[1..]);
      assert (forall i | 0 <= i < |bits| :: bits[i]) <==> bits[0] && forall i | 0 <= i < |bits| - 1 :: bits[1..][i];
    }
  }

  /** The complement of a word of that many bits has the other bits set. */
  lemma {:induction false} PackComplement(bits: seq<bool>)
    ensures Power(|bits|) - 1 - Pack(bits) == Pack(seq(|bits|, i requires 0 <= i < |bits| => !bits[i]))
  {
    var flipped := seq(|bits|, i requires 0 <= i < |bits| => !bits[i]);
    if bits != [] {
      PackComplement(bits[1..]);
      assert flipped[1..] == seq(|bits| - 1, i requires 0 <= i < |bits| - 1 => !bits[1..][i]);
    }
  }

  lemma FullWord()
    ensures Power(LANES) == 0x1_0000_0000
  {
    assert Power(8) == 256;
    assert Power(16) == 256 * Power(8);
    assert Power(24) == 256 * Power(16);
    assert Power(32) == 256 * Power(24);
  }

  /** The lanes that the clearing loop looks at, in its order. */
  function Visits(m: nat): seq<nat> {
    if m == 0 then [] else Shrinks(m); [TrailingZeros(m)] + Visits(Clear(m))
  }

  lemma {:induction false} Shrinks(m: nat)
    requires m > 0
    ensures Clear(m) < m
  {
    if m % 2 == 1 {
      AndSelf(m / 2);
      assert (m - 1) / 2 == m / 2;
    } else {
      Shrinks(m / 2);
      assert (m - 1) / 2 == m / 2 - 1;
    }
  }

  /** The loop visits exactly the set lanes, each once, in ascending order. */
  lemma {:induction false} VisitsSetBits(bits: seq<bool>)
    ensures var v := Visits(Pack(bits));
            && (forall i, j | 0 <= i < j < |v| :: v[i] < v[j])
            && (forall k :: k in v <==> 0 <= k < |bits| && bits[k])
    decreases Pack(bits)
  {
    PackIsZero(bits);
    if Pack(bits) > 0 {
      var k := FirstSet(bits);
      var rest := bits[k := false];
      LowestIsFirst(bits);
      ClearFirst(bits);
      VisitsSetBits(rest);
      var w := Visits(Pack(rest));
      assert Visits(Pack(bits)) == [k] + w;
      forall j | 0 <= j < |w|
        ensures w[j] > k
      {
        assert w[j] in w;
      }
      forall x
        ensures x in [k] + w <==> 0 <= x < |bits| && bits[x]
      {
        assert x in [k] + w <==> x == k || x in w;
      }
    }
  }
}
