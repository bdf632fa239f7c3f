/**
 Around the 64-word numbers of RsaLimbs: the Montgomery word -N^-1 mod 2^32 by
 Newton's iteration, and the conversion between big-endian bytes and words.
 */
module RsaConstants {
  import opened Bytes
  import opened Powers
  import opened RsaLimbs
  import opened Slices

  // ---------- compute_m_prime ----------

  function WrappingMul(a: u32, b: u32): u32 {
    (a * b) % 0x1_0000_0000
  }

  function WrappingSub(a: u32, b: u32): u32 {
    (a - b) % 0x1_0000_0000
  }

  function Newton(m: u32, x: u32): u32 {
    WrappingMul(x, WrappingSub(2, WrappingMul(m, x)))
  }

  /** (1 + e)(1 - e) == 1 - e^2, with e a multiple of k. */
  lemma SquareOfError(s: int, q: int, k: int)
    requires s == 1 + q * k
    ensures s * (2 - s) == 1 - (q * q) * (k * k)
  {
    var e := q * k;
    assert s * (2 - s) == 1 - e * e;
    assert e * e == q * (k * e) == q * (k * (k * q)) == (q * q) * (k * k);
  }

  lemma Regroup(m: int, x: int, z: int, wide: int, t: int, j: int, s: int)
    requires s == m * x && z == 2 - s + wide * j
    ensures m * (x * z - wide * t) == s * (2 - s) + wide * (s * j - m * t)
  {
    assert m * (x * z) == s * z;
    assert s * z == s * (2 - s) + s * (wide * j);
    assert s * (wide * j) == wide * (s * j);
    assert m * (wide * t) == wide * (m * t);
  }

  lemma WrappedProduct(a: u32, b: u32) returns (t: int)
    ensures WrappingMul(a, b) == a * b - WORD * t
  {
    t := (a * b) / WORD;
  }

  lemma WrappedDifference(a: u32, b: u32) returns (j: int)
    ensures WrappingSub(a, b) == a - b + WORD * j
  {
    j := -((a - b) / WORD);
  }

  lemma Collect(p: int, s: int, q: int, k: int, c: int, d: int, wide: int) returns (q': int)
    requires p == s + wide * d && s == 1 - (q * q) * (k * k) && (k * k) * c == wide
    ensures p == 1 + q' * (k * k)
  {
    q' := c * d - q * q;
    assert wide * d == (k * k) * (c * d);
  }

  /** If m * x == 1 modulo k, one Newton step makes it 1 modulo k * k, word wrap-around included. */
  lemma NewtonStep(m: u32, x: u32, k: nat, q: int, c: nat) returns (q': int)
    requires InverseTo(m, x, q, k) && (k * k) * c == WORD
    ensures InverseTo(m, Newton(m, x), q', k * k)
  {
    hide WrappingMul, WrappingSub;
    var s: int := m * x;
    var t0 := WrappedProduct(m, x);
    var j0 := WrappedDifference(2, WrappingMul(m, x));
    var z := WrappingSub(2, WrappingMul(m, x));
    var t := WrappedProduct(x, z);
    Regroup(m, x, z, WORD, t, t0 + j0, s);
    SquareOfError(s, q, k);
    q' := Collect(m * Newton(m, x), s * (2 - s), q, k, c, s * (t0 + j0) - m * t, WORD);
  }

  /** The number is congruent to its lowest word. */
  lemma {:induction false} ValLowWord(s: seq<u32>) returns (q: nat)
    requires |s| > 0
    ensures Val(s) == q * WORD + s[0]
  {
    var n := |s| - 1;
    if n == 0 {
      q := 0;
      assert Val(s[..0]) == 0 && Pow(WORD, 0) == 1;
    } else {
      var q0 := ValLowWord(s[..n]);
      q := q0 + s[n] * Pow(WORD, n - 1);
      assert s[n] * Pow(WORD, n) == (s[n] * Pow(WORD, n - 1)) * WORD;
    }
  }

  ghost predicate InverseTo(m: u32, x: u32, q: int, k: nat) {
    m * x == 1 + q * k
  }

  /** The modulus 2, 2^2, 2^4, 2^8, 2^16, 2^32 to which the iterate is an inverse. */
  ghost function Precision(iteration: nat): nat
    requires iteration <= 5
  {
    if iteration == 0 then 2
    else if iteration == 1 then 0x4
    else if iteration == 2 then 0x10
    else if iteration == 3 then 0x100
    else if iteration == 4 then 0x1_0000
    else WORD
  }

  lemma NegatedInverse(n: int, high: int, limb: int, inverse: int, q: int, t: int, m: int, wide: int) returns (k: int)
    requires n == high * wide + limb
    requires limb * inverse == 1 + q * wide && m == t * wide - inverse
    ensures n * m + 1 == k * wide
  {
    k := high * m + limb * t - q;
    assert n * m == (high * m) * wide + limb * m;
    assert limb * (t * wide - inverse) == (limb * t) * wide - limb * inverse;
  }

  lemma OddHasInverse(modulus: seq<u32>, inverse: u32, q: int)
    requires |modulus| > 0 && modulus[0] % 2 == 1 && InverseTo(modulus[0], inverse, q, WORD)
    ensures (Val(modulus) * WrappingSub(0, inverse) + 1) % WORD == 0 && Val(modulus) % 2 == 1
  {
    var high := ValLowWord(modulus);
    OddLimb(Val(modulus), high, modulus[0], inverse, q);
    LowBit(Val(modulus), high, modulus[0]);
  }

  lemma NegationModuloWord(inverse: u32) returns (t: nat)
    ensures WrappingSub(0, inverse) == t * WORD - inverse
  {
    t := if inverse == 0 then 0 else 1;
  }

  lemma OddLimb(n: nat, high: nat, limb: u32, inverse: u32, q: int)
    requires n == high * WORD + limb && limb % 2 == 1 && InverseTo(limb, inverse, q, WORD)
    ensures (n * WrappingSub(0, inverse) + 1) % WORD == 0
  {
    var m := WrappingSub(0, inverse);
    var t := NegationModuloWord(inverse);
    var k := NegatedInverse(n, high, limb, inverse, q, t, m, WORD);
    WordMultiple(n * m + 1, k);
  }

  lemma WordMultiple(a: int, quotient: int)
    requires a == quotient * WORD
    ensures a % WORD == 0
  {
    RemainderIs(a, WORD, quotient, 0);
  }

  lemma LowBit(n: nat, high: nat, limb: u32)
    requires n == high * WORD + limb
    ensures n % 2 == limb % 2
  {
    Parity(n, high * 0x8000_0000, limb);
  }

  lemma Parity(n: nat, half: nat, low: nat)
    requires n == 2 * half + low
    ensures n % 2 == low % 2
  {}

  lemma PrecisionSquares(iteration: nat)
    requires iteration < 5
    ensures Precision(iteration) * Precision(iteration) == Precision(iteration + 1) > 0
    ensures Precision(iteration + 1) * (WORD / Precision(iteration + 1)) == WORD
  {}

  lemma PrecisionEnds()
    ensures Precision(0) == 2 && Precision(5) == WORD
  {}

  lemma OwnInverse(limb: u32)
    requires limb % 2 == 1
    ensures InverseTo(limb, 1, limb / 2, 2)
  {}

  lemma EvenHasNoInverse(n: nat, m: nat)
    requires n % 2 == 0
    ensures (n * m + 1) % WORD != 0
  {
    var h := (n / 2) * m;
    assert n * m == 2 * h by {
      assert n == 2 * (n / 2);
    }
  }

  /**
   Five Newton steps starting from 1: N * m' is -1 modulo 2^32 exactly when N is odd.
   */
  method ComputeMPrime(modulus: array<u32>) returns (mPrime: u32)
    requires modulus.Length == LIMBS
    ensures (Val(modulus[..]) * mPrime + 1) % WORD == 0 <==> Val(modulus[..]) % 2 == 1
  {
    hide InverseTo, Newton, Precision, Val, WrappingSub;
    var modulusLimb := modulus[0];
    if modulusLimb % 2 == 1 {
      OwnInverse(modulusLimb);
    }
    PrecisionEnds();
    ghost var q: int := modulusLimb / 2;
    var inverse: u32 := 1;
    var iteration := 0;
    while iteration < 5
      invariant 0 <= iteration <= 5
      invariant modulusLimb % 2 == 1 ==> InverseTo(modulusLimb, inverse, q, Precision(iteration))
    {
      PrecisionSquares(iteration);
      if modulusLimb % 2 == 1 {
        q := NewtonStep(modulusLimb, inverse, Precision(iteration), q, WORD / Precision(iteration + 1));
      }
      inverse := Newton(modulusLimb, inverse);
      iteration := iteration + 1;
    }
    mPrime := WrappingSub(0, inverse);
    if modulusLimb % 2 == 1 {
      OddHasInverse(modulus[..], inverse, q);
    } else {
      var high := ValLowWord(modulus[..]);
      LowBit(Val(modulus[..]), high, modulusLimb);
      EvenHasNoInverse(Val(modulus[..]), mPrime);
    }
  }

  // ---------- byte and word order ----------

  lemma {:induction false} PowBytesOfWords(i: nat)
    ensures Pow(256, 4 * i) == Pow(WORD, i)
  {
    if i > 0 {
      PowBytesOfWords(i - 1);
      PowAdd(256, 4, 4 * (i - 1));
      assert Pow(256, 4) == 256 * (256 * (256 * (256 * 1)));
    }
  }

  function WordOf(b: seq<byte>): u32
    requires |b| == 4
  {
    ((b[0] as int * 256 + b[1]) * 256 + b[2]) * 256 + b[3]
  }

  function BytesOf(w: u32): (b: seq<byte>)
    ensures |b| == 4
  {
    [w / 256 / 256 / 256, w / 256 / 256 % 256, w / 256 % 256, w % 256]
  }

  lemma WordOfBytesOf(w: u32)
    ensures WordOf(BytesOf(w)) == w
  {}

  lemma WordOfIsBeVal(b: seq<byte>)
    requires |b| == 4
    ensures BeVal(b) == WordOf(b)
  {
    assert b[..3][..2] == b[..2] && b[..2][..1] == b[..1] && b[..1][..0] == [];
    assert BeVal(b[..1]) == b[0] && BeVal(b[..2]) == 256 * (b[0] as int) + b[1];
    assert BeVal(b[..3]) == 256 * BeVal(b[..2]) + b[2];
  }

  lemma NextWord(bytes: seq<byte>, index: nat)
    requires 4 * (index + 1) <= |bytes|
    ensures var off := |bytes| - 4 * (index + 1);
            BeVal(bytes[off..]) == WordOf(bytes[off..off + 4]) * Pow(WORD, index) + BeVal(bytes[off + 4..])
  {
    var off := |bytes| - 4 * (index + 1);
    assert bytes[off..] == bytes[off..off + 4] + bytes[off + 4..];
    BeValAppend(bytes[off..off + 4], bytes[off + 4..]);
    WordOfIsBeVal(bytes[off..off + 4]);
    PowBytesOfWords(index);
  }

  /** Most significant byte first to least significant word first. */
  function LeWords(bytes: seq<byte>): (words: seq<u32>)
    requires |bytes| % 4 == 0
    ensures |words| == |bytes| / 4
  {
    if bytes == [] then [] else LeWords(bytes[4..]) + [WordOf(bytes[..4])]
  }

  function BeBytesOf(words: seq<u32>): (bytes: seq<byte>)
    ensures |bytes| == 4 * |words|
  {
    if words == [] then [] else BytesOf(words[|words| - 1]) + BeBytesOf(words[..|words| - 1])
  }

  lemma {:induction false} SameNumber(bytes: seq<byte>)
    requires |bytes| % 4 == 0
    ensures Val(LeWords(bytes)) == BeVal(bytes)
  {
    hide BeVal, Val, WordOf;
    if bytes == [] {
      NothingWritten();
    } else {
      var words, n := LeWords(bytes), |bytes| / 4 - 1;
      SameNumber(bytes[4..]);
      assert words[..n] == LeWords(bytes[4..]) && words[..n + 1] == words && bytes[0..] == bytes;
      ValPush(words, n);
      NextWord(bytes, n);
    }
  }

  lemma {:induction false} SameNumberBack(words: seq<u32>)
    ensures BeVal(BeBytesOf(words)) == Val(words)
  {
    hide BeVal, Val, WordOf, BytesOf;
    if words == [] {
      NothingWritten();
    } else {
      var bytes, n := BeBytesOf(words), |words| - 1;
      SameNumberBack(words[..n]);
      assert bytes[4..] == BeBytesOf(words[..n]) && bytes[..4] == BytesOf(words[n]) && bytes[0..] == bytes
             && words[..n + 1] == words;
      WordOfBytesOf(words[n]);
      ValPush(words, n);
      NextWord(bytes, n);
    }
  }

  lemma WordRead(bytes: seq<byte>, was: seq<u32>, now: seq<u32>, index: nat, at: nat)
    requires index < |was| && at + 4 * (index + 1) == |bytes|
    requires now == was[index := WordOf(bytes[at..at + 4])]
    requires Val(was[..index]) == BeVal(bytes[at + 4..])
    ensures Val(now[..index + 1]) == BeVal(bytes[at..])
  {
    hide Val, BeVal, WordOf;
    assert now[..index] == was[..index];
    ValPush(now, index);
    NextWord(bytes, index);
  }

  /** The words stand for the same number as the bytes. */
  method BeBytesToLeWords(bytes: seq<byte>) returns (words: array<u32>)
    requires |bytes| == 4 * LIMBS
    ensures fresh(words) && words.Length == LIMBS
    ensures Val(words[..]) == BeVal(bytes) && words[..] == LeWords(bytes)
  {
    hide Val, BeVal, WordOf;
    words := new u32[LIMBS](_ => 0);
    NothingWritten();
    assert words[..][..0] == [] && bytes[|bytes|..] == [];
    var index := 0;
    while index < LIMBS
      invariant 0 <= index <= LIMBS
      invariant Val(words[..][..index]) == BeVal(bytes[|bytes| - 4 * index..])
    {
      var byteOffset := |bytes| - 4 * (index + 1);
      ghost var was := words[..];
      words[index] := WordOf(bytes[byteOffset..byteOffset + 4]);
      WordRead(bytes, was, words[..], index, byteOffset);
      index := index + 1;
    }
    assert words[..][..LIMBS] == words[..] && bytes[0..] == bytes;
    SameNumber(bytes);
    ValInjective(words[..], LeWords(bytes));
  }

  lemma NothingWritten()
    ensures Val([]) == 0 && BeVal([]) == 0
  {}

  lemma WordWritten(words: seq<u32>, was: seq<byte>, now: seq<byte>, index: nat, at: nat)
    requires index < |words| && at + 4 * (index + 1) == |was|
    requires now == was[..at] + BytesOf(words[index]) + was[at + 4..]
    requires Val(words[..index]) == BeVal(was[at + 4..])
    ensures Val(words[..index + 1]) == BeVal(now[at..])
  {
    hide Val, BeVal, BytesOf, WordOf;
    WordOfBytesOf(words[index]);
    assert now[at..at + 4] == BytesOf(words[index]) && now[at + 4..] == was[at + 4..];
    ValPush(words, index);
    NextWord(now, index);
  }

  method LeWordsToBeBytes(words: array<u32>) returns (bytes: array<byte>)
    requires words.Length == LIMBS
    ensures fresh(bytes) && bytes.Length == 4 * LIMBS
    ensures BeVal(bytes[..]) == Val(words[..]) && bytes[..] == BeBytesOf(words[..])
  {
    hide Val, BeVal, BytesOf, WordOf;
    bytes := new byte[4 * LIMBS](_ => 0);
    NothingWritten();
    assert words[..][..0] == [] && bytes[..][bytes.Length..] == [];
    var index := 0;
    while index < LIMBS
      invariant 0 <= index <= LIMBS
      invariant Val(words[..][..index]) == BeVal(bytes[..][bytes.Length - 4 * index..])
    {
      var byteOffset := bytes.Length - 4 * (index + 1);
      ghost var was := bytes[..];
      var be := BytesOf(words[index]);
      CopyFromSlice(bytes, byteOffset, be);
      WordWritten(words[..], was, bytes[..], index, byteOffset);
      index := index + 1;
    }
    assert words[..][..LIMBS] == words[..] && bytes[..][0..] == bytes[..];
    SameNumberBack(words[..]);
    BeValInjective(bytes[..], BeBytesOf(words[..]));
  }

  /** Bytes to words and back, and words to bytes and back, change nothing. */
  lemma ConversionsInvert(bytes: seq<byte>, words: seq<u32>)
    requires |bytes| % 4 == 0
    ensures |BeBytesOf(words)| % 4 == 0 && LeWords(BeBytesOf(words)) == words
    ensures BeBytesOf(LeWords(bytes)) == bytes
  {
    SameNumber(BeBytesOf(words));
    SameNumberBack(words);
    ValInjective(LeWords(BeBytesOf(words)), words);
    SameNumber(bytes);
    SameNumberBack(LeWords(bytes));
    BeValInjective(BeBytesOf(LeWords(bytes)), bytes);
  }
}
