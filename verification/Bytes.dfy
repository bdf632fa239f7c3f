/** Bytes as numbers, their bitwise exclusive or, and sequences of them. */
module Bytes {
  import opened Powers

  type byte = x: int | 0 <= x < 256

  type u32 = x: int | 0 <= x < 0x1_0000_0000

  const U32_MAX: nat := 0xffff_ffff
  const U64_MAX: nat := 0xffff_ffff_ffff_ffff

  function Min(a: nat, b: nat): nat {
    if a < b then a else b
  }

  function Zeros(n: nat): (z: seq<byte>)
    ensures |z| == n
  {
    seq(n, _ => 0)
  }

  lemma SeqRegroup<T>(a: seq<T>, b: seq<T>, c: seq<T>)
    ensures (a + b) + c == a + (b + c)
  {}

  /** Bitwise exclusive or, lowest bit first. */
  function Xor(a: nat, b: nat): nat
    decreases a + b
  {
    if a == 0 && b == 0 then 0 else (a % 2 + b % 2) % 2 + 2 * Xor(a / 2, b / 2)
  }

  lemma {:induction false} XorBelow(a: nat, b: nat, k: nat)
    requires a < Pow(2, k) && b < Pow(2, k)
    ensures Xor(a, b) < Pow(2, k)
  {
    if k > 0 {
      XorBelow(a / 2, b / 2, k - 1);
    }
  }

  /** Both halves of a number determine it. */
  lemma Halves(x: nat, bit: nat, half: nat)
    requires bit < 2 && x == bit + 2 * half
    ensures x % 2 == bit && x / 2 == half
  {}

  lemma {:induction false} XorCancels(a: nat, b: nat)
    ensures Xor(Xor(a, b), b) == a
    decreases a + b
  {
    if a == 0 && b == 0 {
    } else {
      hide Xor;
      var bit, half := (a % 2 + b % 2) % 2, Xor(a / 2, b / 2);
      XorCancels(a / 2, b / 2);
      XorUnfold(a, b);
      Halves(Xor(a, b), bit, half);
      XorUnfold(Xor(a, b), b);
      assert (bit + b % 2) % 2 == a % 2;
    }
  }

  lemma LowBits(x: nat, bit: nat, half: nat, p: nat)
    requires p > 0 && bit < 2 && x == bit + 2 * half
    ensures x % (2 * p) == bit + 2 * (half % p)
  {
    assert half == p * (half / p) + half % p;
    RemainderIs(x, 2 * p, half / p, bit + 2 * (half % p));
  }

  /** The low `k` bits of an exclusive or are those of its operands. */
  lemma {:induction false} XorLowBits(a: nat, b: nat, k: nat)
    ensures Xor(a, b) % Pow(2, k) == Xor(a % Pow(2, k), b % Pow(2, k))
  {
    if k > 0 && (a != 0 || b != 0) {
      var p := Pow(2, k - 1);
      XorLowBits(a / 2, b / 2, k - 1);
      LowBits(a, a % 2, a / 2, p);
      LowBits(b, b % 2, b / 2, p);
      LowBits(Xor(a, b), (a % 2 + b % 2) % 2, Xor(a / 2, b / 2), p);
      var a', b' := a % (2 * p), b % (2 * p);
      Halves(a', a % 2, a / 2 % p);
      Halves(b', b % 2, b / 2 % p);
      XorUnfold(a', b');
    }
  }

  lemma XorUnfold(a: nat, b: nat)
    ensures Xor(a, b) == (a % 2 + b % 2) % 2 + 2 * Xor(a / 2, b / 2)
  {}

  lemma PowersOfTwo()
    ensures Pow(2, 7) == 128 && Pow(2, 8) == 256
  {
    assert Pow(2, 4) == 16;
    PowAdd(2, 4, 3);
    PowAdd(2, 4, 4);
  }

  function XorByte(a: byte, b: byte): byte {
    PowersOfTwo();
    XorBelow(a, b, 8);
    Xor(a, b)
  }

  lemma LowXorCancels(a: nat, b: nat, k: nat)
    ensures Xor(Xor(a, b) % Pow(2, k), b) % Pow(2, k) == a % Pow(2, k)
  {
    var p := Pow(2, k);
    var x := Xor(a, b) % p;
    XorLowBits(a, b, k);
    XorLowBits(x, b, k);
    RemainderIs(x, p, 0, x);
    XorCancels(a % p, b % p);
  }

  /** Clearing the top bit between two applications of one mask clears only that bit. */
  lemma ClearedXorCancels(a: byte, b: byte)
    ensures XorByte(XorByte(a, b) % 128, b) % 128 == a % 128
  {
    PowersOfTwo();
    LowXorCancels(a, b, 7);
  }

  // ---------- big-endian numbers ----------

  lemma FourBytes()
    ensures Pow(256, 4) == 0x1_0000_0000
  {
    assert Pow(256, 4) == 256 * (256 * (256 * (256 * Pow(256, 0))));
  }

  function BeVal(s: seq<byte>): nat {
    if s == [] then 0 else 256 * BeVal(s[..|s| - 1]) + s[|s| - 1]
  }

  lemma {:induction false} BeValAppend(s: seq<byte>, t: seq<byte>)
    ensures BeVal(s + t) == BeVal(s) * Pow(256, |t|) + BeVal(t)
  {
    if t == [] {
      assert s + t == s;
    } else {
      var n := |t| - 1;
      assert (s + t)[..|s + t| - 1] == s + t[..n];
      BeValAppend(s, t[..n]);
      assert BeVal(s) * Pow(256, |t|) == 256 * (BeVal(s) * Pow(256, n));
    }
  }

  lemma {:induction false} BeValInjective(s: seq<byte>, t: seq<byte>)
    requires |s| == |t| && BeVal(s) == BeVal(t)
    ensures s == t
  {
    if s != [] {
      var n := |s| - 1;
      BeValInjective(s[..n], t[..n]);
      assert s == s[..n] + [s[n]] && t == t[..n] + [t[n]];
    }
  }

  /** The `k` low-order bytes, most significant first. */
  function BeBytes(n: nat, k: nat): (s: seq<byte>)
    ensures |s| == k
  {
    if k == 0 then [] else BeBytes(n / 256, k - 1) + [n % 256]
  }

  lemma {:induction false} BeBytesVal(n: nat, k: nat)
    requires n < Pow(256, k)
    ensures BeVal(BeBytes(n, k)) == n
  {
    if k > 0 {
      assert n / 256 < Pow(256, k - 1);
      BeBytesVal(n / 256, k - 1);
      assert BeBytes(n, k)[..k - 1] == BeBytes(n / 256, k - 1);
    }
  }
}
