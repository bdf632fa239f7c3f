/**
 RSA-2048 numbers as 64 little-endian 32-bit words: doubling, comparison and
 subtraction with carry and borrow, and the two Montgomery constants.
 */
module RsaLimbs {
  import opened Bytes
  import opened Powers

  const WORD: nat := 0x1_0000_0000
  const LIMBS: nat := 64

  datatype Ordering = Less | Equal | Greater

  /** The number a little-endian word sequence stands for. */
  function Val(s: seq<u32>): nat {
    if s == [] then 0 else Val(s[..|s| - 1]) + s[|s| - 1] * Pow(WORD, |s| - 1)
  }

  lemma ValPush(s: seq<u32>, i: nat)
    requires i < |s|
    ensures Val(s[..i + 1]) == Val(s[..i]) + s[i] * Pow(WORD, i)
  {
    assert s[..i + 1][..i] == s[..i];
  }

  lemma {:induction false} ValBound(s: seq<u32>)
    ensures Val(s) < Pow(WORD, |s|)
  {
    if s != [] {
      var n := |s| - 1;
      ValBound(s[..n]);
      MulMonotone(s[n], WORD - 1, Pow(WORD, n));
    }
  }

  /** Words above position `k` contribute the same to both numbers. */
  lemma {:induction false} ValSameTop(s: seq<u32>, t: seq<u32>, k: nat)
    requires |s| == |t| && k <= |s| && s[k..] == t[k..]
    ensures Val(s) - Val(s[..k]) == Val(t) - Val(t[..k])
    decreases |s|
  {
    var n := |s| - 1;
    if k == |s| {
      assert s[..k] == s && t[..k] == t;
    } else {
      assert s[n] == s[k..][n - k] == t[k..][n - k] == t[n];
      assert s[..n][k..] == s[k..][..n - k] && t[..n][k..] == t[k..][..n - k];
      assert s[..n][..k] == s[..k] && t[..n][..k] == t[..k];
      ValSameTop(s[..n], t[..n], k);
    }
  }

  /** Equal-length word sequences are equal exactly when their numbers are. */
  lemma {:induction false} ValInjective(s: seq<u32>, t: seq<u32>)
    requires |s| == |t| && Val(s) == Val(t)
    ensures s == t
  {
    if s != [] {
      var n := |s| - 1;
      var p := Pow(WORD, n);
      ValBound(s[..n]);
      ValBound(t[..n]);
      RemainderIs(Val(s), p, s[n], Val(s[..n]));
      RemainderIs(Val(t), p, t[n], Val(t[..n]));
      ValInjective(s[..n], t[..n]);
      assert s == s[..n] + [s[n]] && t == t[..n] + [t[n]];
    }
  }

  lemma DigitDominates(a: int, b: int, low: nat, p: nat)
    requires a < b && low < p
    ensures low + a * p < b * p
  {
    MulMonotone(a + 1, b, p);
  }

  /** The top differing word decides the order. */
  lemma TopWordDecides(s: seq<u32>, t: seq<u32>, k: nat)
    requires |s| == |t| && k < |s| && s[k] < t[k] && s[k + 1..] == t[k + 1..]
    ensures Val(s) < Val(t)
  {
    var p := Pow(WORD, k);
    ValSameTop(s, t, k + 1);
    ValPush(s, k);
    ValPush(t, k);
    ValBound(s[..k]);
    DigitDominates(s[k], t[k], Val(s[..k]), p);
  }

  method CmpLeWords(left: array<u32>, right: array<u32>) returns (o: Ordering)
    requires left.Length == right.Length
    ensures o == if Val(left[..]) < Val(right[..]) then Less
                 else if Val(left[..]) > Val(right[..]) then Greater else Equal
    ensures o == Equal <==> left[..] == right[..]
  {
    var index := left.Length;
    while index > 0
      invariant 0 <= index <= left.Length
      invariant left[index..] == right[index..]
    {
      index := index - 1;
      if left[index] < right[index] {
        TopWordDecides(left[..], right[..], index);
        return Less;
      }
      if left[index] > right[index] {
        TopWordDecides(right[..], left[..], index);
        return Greater;
      }
      assert left[index..] == [left[index]] + left[index + 1..];
      assert right[index..] == [right[index]] + right[index + 1..];
    }
    assert left[..] == left[0..] == right[0..] == right[..];
    return Equal;
  }

  /** One column of the subtraction: the borrow chain stays exact. */
  lemma BorrowColumn(l: int, r: int, borrow: int, w: int, borrow': int, p: int, below: int, right: int, left: int)
    requires l - r - borrow == w - borrow' * WORD
    requires below == left - right + borrow * p
    ensures below + w * p == (left + l * p) - (right + r * p) + borrow' * (WORD * p)
  {
    assert (l - r - borrow) * p == (w - borrow' * WORD) * p;
    assert (l - r - borrow) * p == l * p - r * p - borrow * p;
    assert (w - borrow' * WORD) * p == w * p - borrow' * (WORD * p);
  }

  lemma SubtractedColumn(was: seq<u32>, right: seq<u32>, before: seq<u32>, index: nat, borrow: nat, w: u32,
                         borrow': nat)
    requires |was| == |right| == |before| && index < |was|
    requires was[index] as int - right[index] - borrow == w - borrow' * WORD
    requires Val(before[..index]) == Val(was[..index]) - Val(right[..index]) + borrow * Pow(WORD, index)
    ensures Val(before[index := w][..index + 1])
            == Val(was[..index + 1]) - Val(right[..index + 1]) + borrow' * Pow(WORD, index + 1)
  {
    var after := before[index := w];
    assert after[..index] == before[..index];
    ValPush(after, index);
    ValPush(was, index);
    ValPush(right, index);
    BorrowColumn(was[index], right[index], borrow, w, borrow', Pow(WORD, index),
                 Val(before[..index]), Val(right[..index]), Val(was[..index]));
  }

  lemma WrappedBelow(lhs: u32, rhs: nat)
    requires rhs <= WORD
    ensures (lhs - rhs) % WORD == lhs - rhs + if lhs < rhs then WORD else 0
  {
    RemainderIs(lhs - rhs, WORD, if lhs < rhs then -1 else 0, lhs - rhs + if lhs < rhs then WORD else 0);
  }

  /** left := (left - right) mod 2^2048, with the borrow lost at the top. */
  method SubAssignLeWords(left: array<u32>, right: array<u32>)
    requires left.Length == right.Length && left != right
    modifies left
    ensures Val(left[..]) == (old(Val(left[..])) - Val(right[..])) % Pow(WORD, left.Length)
  {
    hide Val, Pow;
    ghost var was := left[..];
    var borrow := 0;
    var index := 0;
    NoWords();
    assert left[..][..0] == [] && right[..][..0] == [];
    while index < left.Length
      invariant 0 <= index <= left.Length && 0 <= borrow <= 1
      invariant left[..][index..] == was[index..]
      invariant Val(left[..][..index]) == Val(was[..index]) - Val(right[..][..index]) + borrow * Pow(WORD, index)
    {
      ghost var before, b := left[..], borrow;
      assert left[index] == left[..][index..][0] == was[index];
      var rhs := right[index] + borrow;
      var lhs := left[index];
      WrappedBelow(lhs, rhs);
      left[index] := (lhs - rhs) % 0x1_0000_0000;
      borrow := if lhs < rhs then 1 else 0;
      assert left[..] == before[index := left[index]];
      SubtractedColumn(was, right[..], before, index, b, left[index], borrow);
      index := index + 1;
    }
    assert left[..][..index] == left[..] && was[..index] == was && right[..][..index] == right[..];
    ValBound(left[..]);
    RemainderIs(Val(was) - Val(right[..]), Pow(WORD, left.Length), -borrow, Val(left[..]));
  }

  lemma NoWords()
    ensures Val([]) == 0
  {}

  lemma CarryColumn(v: int, carry: int, w: int, carry': int, p: int, below: int, was: int)
    requires 2 * v + carry == w + carry' * WORD
    requires below + carry * p == 2 * was
    ensures (below + w * p) + carry' * (WORD * p) == 2 * (was + v * p)
  {
    assert (2 * v + carry) * p == (w + carry' * WORD) * p;
    assert (2 * v + carry) * p == 2 * (v * p) + carry * p;
    assert (w + carry' * WORD) * p == w * p + carry' * (WORD * p);
  }

  /** What one modular doubling does to the number held, for any operands. */
  function Doubled(v: nat, n: nat, limbs: nat): nat {
    if 2 * v < n then 2 * v else (2 * v - n) % Pow(WORD, limbs)
  }

  /** Dropping the carry and subtracting agree with subtracting from the full double. */
  lemma ReduceOnce(v: nat, n: nat, low: nat, carry: nat, limbs: nat)
    requires low < Pow(WORD, limbs) && n < Pow(WORD, limbs) && carry <= 1
    requires low + carry * Pow(WORD, limbs) == 2 * v
    ensures carry != 0 || low >= n <==> 2 * v >= n
    ensures 2 * v >= n ==> (low - n) % Pow(WORD, limbs) == Doubled(v, n, limbs)
  {
    var p := Pow(WORD, limbs);
    var q, r := (low - n) / p, (low - n) % p;
    assert low - n == p * q + r;
    if carry == 1 {
      RemainderIs(2 * v - n, p, q + 1, r);
    }
  }

  method DoubleMod(value: array<u32>, modulus: array<u32>)
    requires value.Length == modulus.Length && value != modulus
    modifies value
    ensures Val(value[..]) == old(Doubled(Val(value[..]), Val(modulus[..]), value.Length))
  {
    ghost var was := value[..];
    var carry := 0;
    var index := 0;
    while index < value.Length
      invariant 0 <= index <= value.Length && 0 <= carry <= 1
      invariant value[index..] == was[index..]
      invariant Val(value[..index]) + carry * Pow(WORD, index) == 2 * Val(was[..index])
    {
      ghost var done := value[..index];
      ghost var c := carry;
      assert value[index] == value[index..][0] == was[index];
      var doubled := value[index] * 2 + carry;
      value[index] := doubled % 0x1_0000_0000;
      carry := doubled / 0x1_0000_0000;
      assert value[..index] == done;
      ValPush(value[..], index);
      ValPush(was, index);
      assert value[..][..index] == done && value[..][..index + 1] == value[..index + 1];
      CarryColumn(was[index], c, value[index], carry, Pow(WORD, index), Val(done), Val(was[..index]));
      index := index + 1;
      assert value[index..] == was[index..];
    }
    assert value[..value.Length] == value[..] && was[..value.Length] == was;
    ValBound(value[..]);
    ValBound(modulus[..]);
    ReduceOnce(Val(was), Val(modulus[..]), Val(value[..]), carry, value.Length);
    var order := CmpLeWords(value, modulus);
    if carry != 0 || order != Less {
      SubAssignLeWords(value, modulus);
    }
  }

  /** Below the modulus, one step is doubling modulo n, carry-out included. */
  lemma DoubledIsModular(v: nat, n: nat, limbs: nat)
    requires v < n < Pow(WORD, limbs)
    ensures Doubled(v, n, limbs) == (2 * v) % n
  {
    if 2 * v >= n {
      RemainderIs(2 * v, n, 1, 2 * v - n);
      RemainderIs(2 * v - n, Pow(WORD, limbs), 0, 2 * v - n);
    } else {
      RemainderIs(2 * v, n, 0, 2 * v);
    }
  }

  lemma DoublePower(n: nat, bit: nat)
    requires n > 0
    ensures (2 * (Pow(2, bit) % n)) % n == Pow(2, bit + 1) % n
  {
    var m, q := Pow(2, bit) % n, Pow(2, bit) / n;
    assert Pow(2, bit + 1) == (2 * q) * n + 2 * m;
    RemainderIs(Pow(2, bit + 1), n, 2 * q + (2 * m) / n, (2 * m) % n);
  }

  /** The residue held after `bits` doublings of 1, for every modulus. */
  function PowerResidue(n: nat, bits: nat): nat
    requires n > 0
  {
    if n == 1 then 1 else Pow(2, bits) % n
  }

  /**
   2^4096 mod N for every N > 1. The starting value 1 is already reduced for
   those moduli only: for N == 1 the words keep standing for 1.
   */
  method ComputeRSquaredModN(modulus: array<u32>) returns (value: array<u32>)
    requires modulus.Length == LIMBS
    ensures fresh(value) && value.Length == modulus.Length
    ensures Val(modulus[..]) > 0 ==>
            (Val(value[..]) == Pow(2, 64 * modulus.Length) % Val(modulus[..]) <==> Val(modulus[..]) != 1)
    ensures Val(modulus[..]) == 1 ==> Val(value[..]) == 1
  {
    ghost var n := Val(modulus[..]);
    value := new u32[modulus.Length](_ => 0);
    value[0] := 1;
    assert value[..] == [1] + value[1..];
    OneIsOne(value[..]);
    ValBound(value[..]);
    ValBound(modulus[..]);
    var bit := 0;
    assert n > 1 ==> Pow(2, 0) % n == 1 by {
      if n > 1 { RemainderIs(1, n, 0, 1); }
    }
    while bit < 64 * modulus.Length
      invariant 0 <= bit <= 64 * modulus.Length
      invariant n > 0 ==> Val(value[..]) == PowerResidue(n, bit)
    {
      DoubleMod(value, modulus);
      ValBound(value[..]);
      if n > 1 {
        DoubledIsModular(Pow(2, bit) % n, n, modulus.Length);
        DoublePower(n, bit);
      } else if n == 1 {
        RemainderIs(1, Pow(WORD, modulus.Length), 0, 1);
      }
      bit := bit + 1;
    }
    if n > 0 { ResidueExact(n, 64 * modulus.Length); }
  }

  lemma {:induction false} OneIsOne(s: seq<u32>)
    requires |s| >= 1 && s[0] == 1 && forall i :: 1 <= i < |s| ==> s[i] == 0
    ensures Val(s) == 1
  {
    if |s| > 1 {
      OneIsOne(s[..|s| - 1]);
    } else {
      assert Val(s[..0]) == 0;
    }
  }

  /** The loop's result is the residue of 2^bits exactly when N is not 1. */
  lemma ResidueExact(n: nat, bits: nat)
    requires n > 0
    ensures PowerResidue(n, bits) == Pow(2, bits) % n <==> n != 1
  {
    if n == 1 {
      RemainderIs(Pow(2, bits), 1, Pow(2, bits), 0);
    }
  }
}
