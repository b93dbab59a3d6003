/**
 Machine words, written over the integers.  A `Word` is a Go uint32, a `Byte` a
 Go byte and a `Uint64` a Go uint64; every operation that wraps or truncates in
 the original says so here with an explicit remainder.
 */
module Words {
  const BYTE_RANGE := 256
  const WORD_RANGE := 0x1_0000_0000
  const UINT64_RANGE := 0x1_0000_0000_0000_0000

  type Byte = b: nat | b < BYTE_RANGE
  type Word = w: nat | w < WORD_RANGE
  type Uint64 = n: nat | n < UINT64_RANGE

  function Zeros(n: nat): (z: seq<Byte>)
    ensures |z| == n && forall i :: 0 <= i < n ==> z[i] == 0
  {
    seq(n, i => 0)
  }

  function Pow2(n: nat): (p: nat)
    ensures p >= 1
  {
    if n == 0 then 1 else 2 * Pow2(n - 1)
  }

  function Add(x: Word, y: Word): Word {
    (x + y) % WORD_RANGE
  }

  function Sub(x: Word, y: Word): Word {
    (x - y) % WORD_RANGE
  }

  // ----- Shifts of unbounded naturals, one bit at a time -----

  function ShiftLeft(x: nat, d: nat): nat {
    if d == 0 then x else 2 * ShiftLeft(x, d - 1)
  }

  function ShiftRight(x: nat, d: nat): nat {
    if d == 0 then x else ShiftRight(x / 2, d - 1)
  }

  // x & (1 << d) - 1
  function LowBits(x: nat, d: nat): nat {
    if d == 0 then 0 else 2 * LowBits(x / 2, d - 1) + x % 2
  }

  lemma {:induction false} SplitBits(x: nat, d: nat)
    ensures LowBits(x, d) < Pow2(d) && x == ShiftLeft(ShiftRight(x, d), d) + LowBits(x, d)
  {
    if d > 0 {
      SplitBits(x / 2, d - 1);
    }
  }

  lemma {:induction false} ShiftRightNext(x: nat, d: nat)
    ensures ShiftRight(x, d + 1) == ShiftRight(x, d) / 2
    decreases d
  {
    if d > 0 {
      ShiftRightNext(x / 2, d - 1);
    }
  }

  lemma {:induction false} ShiftRightTop(n: nat, x: nat, d: nat)
    requires d <= n
    ensures ShiftRight(Pow2(n) + x, d) == Pow2(n - d) + ShiftRight(x, d)
    decreases d
  {
    if d > 0 {
      assert (Pow2(n) + x) / 2 == Pow2(n - 1) + x / 2;
      ShiftRightTop(n - 1, x / 2, d - 1);
    }
  }

  lemma {:induction false} ShiftRightBound(x: nat, n: nat, d: nat)
    requires d <= n && x < Pow2(n)
    ensures ShiftRight(x, d) < Pow2(n - d)
    decreases d
  {
    if d > 0 {
      ShiftRightBound(x / 2, n - 1, d - 1);
    }
  }

  // ----- Shifts and bitwise operations on words -----

  // Go gives 0 when a uint32 is shifted by 32 or more.
  function Shl(x: Word, k: nat): Word {
    if k >= 32 then 0 else ShiftLeft(x, k) % WORD_RANGE
  }

  function Shr(x: Word, k: nat): Word {
    if k >= 32 then 0 else ShiftRightLe(x, k); ShiftRight(x, k)
  }

  lemma {:induction false} ShiftRightLe(x: nat, d: nat)
    ensures ShiftRight(x, d) <= x
    decreases d
  {
    if d > 0 {
      ShiftRightLe(x / 2, d - 1);
    }
  }

  lemma WordBits()
    ensures Pow2(0) == 1 && Pow2(31) == 0x8000_0000 && Pow2(32) == WORD_RANGE
  {
    assert Pow2(8) == 256;
    assert Pow2(16) == 256 * Pow2(8);
    assert Pow2(24) == 256 * Pow2(16);
    assert Pow2(32) == 256 * Pow2(24);
  }

  // The low n bits of x & y and x | y and x ^ y.
  function AndBits(x: nat, y: nat, n: nat): (r: nat)
    ensures r < Pow2(n)
  {
    if n == 0 then 0 else 2 * AndBits(x / 2, y / 2, n - 1) + if x % 2 == 1 && y % 2 == 1 then 1 else 0
  }

  function OrBits(x: nat, y: nat, n: nat): (r: nat)
    ensures r < Pow2(n)
  {
    if n == 0 then 0 else 2 * OrBits(x / 2, y / 2, n - 1) + if x % 2 == 1 || y % 2 == 1 then 1 else 0
  }

  function XorBits(x: nat, y: nat, n: nat): (r: nat)
    ensures r < Pow2(n)
  {
    if n == 0 then 0 else 2 * XorBits(x / 2, y / 2, n - 1) + if x % 2 != y % 2 then 1 else 0
  }

  function And(x: Word, y: Word): Word {
    WordBits(); AndBits(x, y, 32)
  }

  function Or(x: Word, y: Word): Word {
    WordBits(); OrBits(x, y, 32)
  }

  function Xor(x: Word, y: Word): Word {
    WordBits(); XorBits(x, y, 32)
  }

  function Not(x: Word): Word {
    WORD_RANGE - 1 - x
  }

  // Masking with 2^k - 1 keeps the low k bits.
  lemma {:induction false} AndLowMask(x: nat, k: nat, n: nat)
    requires k <= n
    ensures AndBits(x, Pow2(k) - 1, n) == LowBits(x, k)
    decreases n
  {
    if n > 0 {
      if k > 0 {
        assert (Pow2(k) - 1) / 2 == Pow2(k - 1) - 1 && (Pow2(k) - 1) % 2 == 1;
        AndLowMask(x / 2, k - 1, n - 1);
      } else {
        AndLowMask(x / 2, 0, n - 1);
        assert (Pow2(0) - 1) / 2 == 0;
      }
    }
  }

  // Masking with a multiple of 2^k that has every higher bit set clears the low k bits.
  lemma {:induction false} AndHighMask(x: nat, mask: nat, k: nat, n: nat)
    requires k <= n && x < Pow2(n) && mask + Pow2(k) == Pow2(n)
    ensures LowBits(x, k) <= x && AndBits(x, mask, n) == x - LowBits(x, k)
    decreases n
  {
    if n > 0 {
      AndHighMask(x / 2, mask / 2, if k > 0 then k - 1 else 0, n - 1);
    }
  }

  // Complement by exclusive or.
  lemma {:induction false} XorOnes(ones: nat, x: nat, n: nat)
    requires ones + 1 == Pow2(n) && x < Pow2(n)
    ensures XorBits(ones, x, n) == ones - x
    decreases n
  {
    if n > 0 {
      XorOnes(ones / 2, x / 2, n - 1);
    }
  }

  // Clear the w bits from bit k on, then put other bits there.
  lemma {:induction false} InsertField(x: nat, mask: nat, v: nat, w: nat, k: nat, n: nat)
    requires x < Pow2(n) && v < Pow2(w) && k + w <= n
    requires mask + 1 + ShiftLeft(Pow2(w) - 1, k) == Pow2(n)
    ensures var field := ShiftLeft(LowBits(ShiftRight(x, k), w), k);
      field <= x && OrBits(AndBits(x, mask, n), ShiftLeft(v, k), n) == x - field + ShiftLeft(v, k)
    decreases k
  {
    if k > 0 {
      assert mask / 2 + 1 + ShiftLeft(Pow2(w) - 1, k - 1) == Pow2(n - 1);
      InsertField(x / 2, mask / 2, v, w, k - 1, n - 1);
      var a := AndBits(x, mask, n);
      assert a / 2 == AndBits(x / 2, mask / 2, n - 1) && a % 2 == x % 2;
      assert OrBits(a, ShiftLeft(v, k), n) == 2 * OrBits(a / 2, ShiftLeft(v, k - 1), n - 1) + a % 2;
    } else {
      InsertLow(x, mask, v, w, n);
    }
  }

  lemma InsertLow(x: nat, mask: nat, v: nat, w: nat, n: nat)
    requires x < Pow2(n) && v < Pow2(w) && w <= n && mask + Pow2(w) == Pow2(n)
    ensures LowBits(x, w) <= x && OrBits(AndBits(x, mask, n), v, n) == x - LowBits(x, w) + v
  {
    hide Pow2, OrBits, AndBits, LowBits, ShiftLeft, ShiftRight;
    AndHighMask(x, mask, w, n);
    SplitBits(x, w);
    ReplaceLow(x, v, w, n);
    OrIsAdd(v, ShiftRight(x, w), w, n);
  }

  lemma {:induction false} ReplaceLow(x: nat, v: nat, w: nat, n: nat)
    requires w <= n && x < Pow2(n) && v < Pow2(w)
    ensures x - LowBits(x, w) + v < Pow2(n)
    decreases n
  {
    if w > 0 {
      ReplaceLow(x / 2, v / 2, w - 1, n - 1);
    }
  }

  // Where no bits overlap, or is addition.
  lemma {:induction false} OrIsAdd(lo: nat, hi: nat, k: nat, n: nat)
    requires lo < Pow2(k) && lo + ShiftLeft(hi, k) < Pow2(n)
    ensures OrBits(lo, ShiftLeft(hi, k), n) == lo + ShiftLeft(hi, k)
    ensures OrBits(ShiftLeft(hi, k), lo, n) == lo + ShiftLeft(hi, k)
    decreases n
  {
    if n > 0 {
      if k > 0 {
        assert ShiftLeft(hi, k) / 2 == ShiftLeft(hi, k - 1);
        OrIsAdd(lo / 2, hi, k - 1, n - 1);
      } else {
        OrIsAdd(0, hi / 2, 0, n - 1);
      }
    }
  }

  lemma {:induction false} LowBitsAll(x: nat, n: nat)
    requires x < Pow2(n)
    ensures LowBits(x, n) == x
    decreases n
  {
    if n > 0 {
      LowBitsAll(x / 2, n - 1);
    }
  }

  lemma {:induction false} ShiftLeftPow2(a: nat, b: nat)
    ensures ShiftLeft(Pow2(a), b) == Pow2(a + b) && ShiftLeft(Pow2(a) - 1, b) == Pow2(a + b) - Pow2(b)
    decreases b
  {
    if b > 0 {
      ShiftLeftPow2(a, b - 1);
    }
  }

  lemma {:induction false} ShiftRightNonzero(x: nat, d: nat)
    ensures ShiftRight(x, d) != 0 <==> x >= Pow2(d)
    decreases d
  {
    if d > 0 {
      ShiftRightNonzero(x / 2, d - 1);
    }
  }

  lemma {:induction false} ShiftLeftLess(x: nat, y: nat, d: nat)
    ensures x < y <==> ShiftLeft(x, d) < ShiftLeft(y, d)
    decreases d
  {
    if d > 0 {
      ShiftLeftLess(x, y, d - 1);
    }
  }

  // The value of a word read as a Go int32.
  function Signed(x: Word): int {
    if x < 0x8000_0000 then x else x - WORD_RANGE
  }

  // The low 32 bits of an integer, as a Go conversion to uint32 keeps them.
  function Trunc(x: int): Word {
    x % WORD_RANGE
  }

  // Big-endian bytes of a word: binary.BigEndian.PutUint32 and Uint32.
  function ToBytes(v: Word): (s: seq<Byte>)
    ensures |s| == 4
  {
    [v / 256 / 256 / 256, v / 256 / 256 % 256, v / 256 % 256, v % 256]
  }

  function FromBytes(s: seq<Byte>): Word
    requires |s| == 4
  {
    var a, b, c, d: int := s[0], s[1], s[2], s[3];
    256 * (256 * (256 * a + b) + c) + d
  }

  lemma WordRoundTrip(v: Word)
    ensures FromBytes(ToBytes(v)) == v
  {
  }

  lemma BytesRoundTrip(s: seq<Byte>)
    requires |s| == 4
    ensures ToBytes(FromBytes(s)) == s
  {
    var a, b, c: int := s[0], s[1], s[2];
    var v := FromBytes(s);
    assert v / 256 == 256 * (256 * a + b) + c;
    assert v / 256 / 256 == 256 * a + b;
  }
}
