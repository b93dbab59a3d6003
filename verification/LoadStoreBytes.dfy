/**
 What the load and store instructions do to the big-endian bytes of a word.
 `o` is the position of the addressed byte in its word.
 */
module LoadStoreBytes {
  import opened Words
  import opened Wrappers
  import opened Alu

  // ----- Shifts by whole bytes -----

  lemma ShiftBy8(x: nat)
    ensures ShiftLeft(x, 8) == 256 * x && ShiftRight(x, 8) == x / 256
  {
    assert ShiftLeft(x, 1) == 2 * x;
    assert ShiftLeft(x, 3) == 4 * ShiftLeft(x, 1);
    assert ShiftLeft(x, 5) == 4 * ShiftLeft(x, 3);
    assert ShiftLeft(x, 7) == 4 * ShiftLeft(x, 5);
    var y := x / 2 / 2;
    var z := y / 2 / 2;
    var w := z / 2 / 2;
    assert ShiftRight(x, 8) == ShiftRight(x / 2, 7) == ShiftRight(y, 6);
    assert ShiftRight(y, 6) == ShiftRight(y / 2, 5) == ShiftRight(z, 4);
    assert ShiftRight(z, 4) == ShiftRight(z / 2, 3) == ShiftRight(w, 2);
    assert ShiftRight(w, 2) == ShiftRight(w / 2, 1) == ShiftRight(w / 2 / 2, 0);
  }

  lemma {:induction false} ShiftLeftTwice(x: nat, a: nat, b: nat)
    ensures ShiftLeft(ShiftLeft(x, a), b) == ShiftLeft(x, a + b)
  {
    if b > 0 {
      ShiftLeftTwice(x, a, b - 1);
    }
  }

  lemma {:induction false} ShiftRightTwice(x: nat, a: nat, b: nat)
    ensures ShiftRight(ShiftRight(x, a), b) == ShiftRight(x, a + b)
    decreases a
  {
    if a > 0 {
      ShiftRightTwice(x / 2, a - 1, b);
    }
  }

  // 2^(8n)
  function Bytes(n: nat): (b: nat)
    requires n <= 4
    ensures b >= 1
  {
    [1, 256, 0x1_0000, 0x100_0000, 0x1_0000_0000][n]
  }

  lemma {:induction false} ShiftByBytes(x: nat, n: nat)
    requires n <= 3
    ensures ShiftLeft(x, 8 * n) == x * Bytes(n) && ShiftRight(x, 8 * n) == x / Bytes(n)
  {
    if n > 0 {
      hide ShiftLeft, ShiftRight;
      ShiftByBytes(x, n - 1);
      ShiftLeftTwice(x, 8 * n - 8, 8);
      ShiftRightTwice(x, 8 * n - 8, 8);
      ShiftBy8(ShiftLeft(x, 8 * n - 8));
      ShiftBy8(ShiftRight(x, 8 * n - 8));
    }
  }

  lemma OneByBytes()
    ensures Pow2(0) == 1 && Pow2(8) == 256 && Pow2(16) == 0x1_0000 && Pow2(24) == 0x100_0000
    ensures Pow2(32) == WORD_RANGE
  {
    assert Pow2(16) == 256 * Pow2(8);
    assert Pow2(24) == 256 * Pow2(16);
    assert Pow2(32) == 256 * Pow2(24);
  }

  lemma LowByBytes(x: nat, n: nat)
    requires n <= 3
    ensures LowBits(x, 8 * n) == x % Bytes(n) && Pow2(8 * n) == Bytes(n)
  {
    hide ShiftLeft, ShiftRight, LowBits, Pow2;
    OneByBytes();
    SplitBits(x, 8 * n);
    ShiftByBytes(x, n);
    ShiftByBytes(ShiftRight(x, 8 * n), n);
  }

  // x << 8n and x >> 8n on words.
  lemma ShlBytes(x: Word, n: nat)
    requires n <= 3
    ensures Shl(x, 8 * n) == x % Bytes(4 - n) * Bytes(n)
  {
    hide ShiftLeft;
    ShiftByBytes(x, n);
    TruncatedProduct(x, n);
  }

  lemma TruncatedProduct(x: Word, n: nat)
    requires n <= 3
    ensures x * Bytes(n) % WORD_RANGE == x % Bytes(4 - n) * Bytes(n)
  {
    Truncated1(x);
    Truncated2(x);
    Truncated3(x);
  }

  lemma Truncated1(x: Word)
    ensures x * 256 % WORD_RANGE == x % 0x100_0000 * 256
  {
  }

  lemma Truncated2(x: Word)
    ensures x * 0x1_0000 % WORD_RANGE == x % 0x1_0000 * 0x1_0000
  {
  }

  lemma Truncated3(x: Word)
    ensures x * 0x100_0000 % WORD_RANGE == x % 256 * 0x100_0000
  {
  }

  lemma ShrBytes(x: Word, n: nat)
    requires n <= 3
    ensures Shr(x, 8 * n) == x / Bytes(n)
  {
    ShiftByBytes(x, n);
  }

  /** Replace all but the low n bytes. */
  lemma KeepLowBytes(x: Word, top: Word, n: nat)
    requires n <= 3 && top < Bytes(4 - n)
    ensures Or(And(x, Not(Shl(ALL_ONES, 8 * n))), Shl(top, 8 * n)) == x % Bytes(n) + top * Bytes(n)
  {
    hide ShiftLeft, ShiftRight, LowBits, Pow2, AndBits, OrBits, Shl;
    OneByBytes();
    ShlBytes(ALL_ONES, n);
    ShlBytes(top, n);
    LowByBytes(x, n);
    AndLowMask(x, 8 * n, 32);
    ShiftByBytes(top, n);
    OrIsAdd(x % Bytes(n), top, 8 * n, 32);
  }

  /** Replace the low n bytes. */
  lemma KeepHighBytes(x: Word, low: Word, n: nat)
    requires 1 <= n <= 4 && low < Bytes(n)
    ensures Or(And(x, Not(Shr(ALL_ONES, 32 - 8 * n))), low) == x - x % Bytes(n) + low
  {
    hide ShiftLeft, ShiftRight, LowBits, Pow2, AndBits, OrBits, Shr;
    OneByBytes();
    ShrBytes(ALL_ONES, 4 - n);
    if n == 4 {
      AndLowMask(x, 0, 32);
      NoLowBits(x);
      OrZero(low);
    } else {
      LowByBytes(x, n);
      InsertLow(x, Not(Shr(ALL_ONES, 32 - 8 * n)), low, 8 * n, 32);
    }
  }

  lemma NoLowBits(x: nat)
    ensures LowBits(x, 0) == 0
  {
  }

  lemma OrZero(x: Word)
    ensures Or(0, x) == x
  {
    hide ShiftLeft, OrBits, Pow2;
    OneByBytes();
    ShiftByBytes(x, 0);
    OrIsAdd(0, x, 0, 32);
  }

  // ----- Bytes of composed words -----

  lemma ByteParts(x: Word)
    ensures var b := ToBytes(x); var b0, b1, b2, b3: int := b[0], b[1], b[2], b[3];
      && x == 0x100_0000 * b0 + 0x1_0000 * b1 + 256 * b2 + b3
      && x / 256 == 0x1_0000 * b0 + 256 * b1 + b2 && x % 256 == b3
      && x / 0x1_0000 == 256 * b0 + b1 && x % 0x1_0000 == 256 * b2 + b3
      && x / 0x100_0000 == b0 && x % 0x100_0000 == 0x1_0000 * b1 + 256 * b2 + b3
  {
    var b := ToBytes(x);
    var b0: int, b1: int, b2: int := b[0], b[1], b[2];
    assert x / 256 == 256 * (256 * b0 + b1) + b2;
    assert x / 256 / 256 == 256 * b0 + b1;
  }

  // The leading bytes of x followed by the last n bytes of y.
  lemma JoinBytes(x: Word, y: Word, n: nat)
    requires n <= 4
    ensures x - x % Bytes(n) + y % Bytes(n) < WORD_RANGE
    ensures ToBytes(x - x % Bytes(n) + y % Bytes(n)) == ToBytes(x)[..4 - n] + ToBytes(y)[4 - n..]
  {
    hide ToBytes;
    var l := ToBytes(x)[..4 - n] + ToBytes(y)[4 - n..];
    ByteParts(x);
    ByteParts(y);
    assert x - x % Bytes(n) + y % Bytes(n) == FromBytes(l);
    BytesRoundTrip(l);
  }

  lemma BytesShiftedLeft(x: Word, n: nat)
    requires n <= 3
    ensures x % Bytes(4 - n) * Bytes(n) < WORD_RANGE
    ensures ToBytes(x % Bytes(4 - n) * Bytes(n)) == ToBytes(x)[n..] + [0, 0, 0, 0][..n]
  {
    hide ToBytes;
    var l := ToBytes(x)[n..] + [0, 0, 0, 0][..n];
    ByteParts(x);
    assert x % Bytes(4 - n) * Bytes(n) == FromBytes(l);
    BytesRoundTrip(l);
  }

  lemma BytesShiftedRight(x: Word, n: nat)
    requires n <= 3
    ensures ToBytes(x / Bytes(n)) == [0, 0, 0, 0][..n] + ToBytes(x)[..4 - n]
  {
    hide ToBytes;
    var l := [0, 0, 0, 0][..n] + ToBytes(x)[..4 - n];
    ByteParts(x);
    assert x / Bytes(n) == FromBytes(l);
    BytesRoundTrip(l);
  }

  // ----- The instructions -----

  lemma Lwl(rs: Word, rt: Word, mem: Word)
    ensures var v := LoadStore(0x22, rs, rt, mem); var o := rs % 4;
      v.Some? && ToBytes(v.value) == ToBytes(mem)[o..] + ToBytes(rt)[4 - o..]
  {
    hide ToBytes, Or, And, Shl, Shr;
    var o := rs % 4;
    ShlBytes(mem, o);
    ShlBytes(mem % Bytes(4 - o), o);
    KeepLowBytes(rt, mem % Bytes(4 - o), o);
    BytesShiftedLeft(mem, o);
    JoinBytes(mem % Bytes(4 - o) * Bytes(o), rt, o);
    MultipleHasNoRest(mem % Bytes(4 - o), o);
  }

  lemma MultipleHasNoRest(t: nat, n: nat)
    requires n <= 3
    ensures t * Bytes(n) % Bytes(n) == 0 && t % Bytes(4 - n) % Bytes(4 - n) == t % Bytes(4 - n)
  {
  }

  lemma Lwr(rs: Word, rt: Word, mem: Word)
    ensures var v := LoadStore(0x26, rs, rt, mem); var o := rs % 4;
      v.Some? && ToBytes(v.value) == ToBytes(rt)[..3 - o] + ToBytes(mem)[..o + 1]
  {
    hide ToBytes, Or, And, Shl, Shr;
    var o := rs % 4;
    ShrBytes(mem, 3 - o);
    HighPartSmall(mem, 3 - o);
    KeepHighBytes(rt, mem / Bytes(3 - o), o + 1);
    BytesShiftedRight(mem, 3 - o);
    JoinBytes(rt, mem / Bytes(3 - o), o + 1);
  }

  lemma HighPartSmall(x: Word, n: nat)
    requires n <= 3
    ensures x / Bytes(n) < Bytes(4 - n) && x / Bytes(n) % Bytes(4 - n) == x / Bytes(n)
  {
  }

  lemma Swl(rs: Word, rt: Word, mem: Word)
    ensures var v := LoadStore(0x2a, rs, rt, mem); var o := rs % 4;
      v.Some? && ToBytes(v.value) == ToBytes(mem)[..o] + ToBytes(rt)[..4 - o]
  {
    hide ToBytes, Or, And, Shl, Shr;
    var o := rs % 4;
    ShrBytes(rt, o);
    HighPartSmall(rt, o);
    KeepHighBytes(mem, rt / Bytes(o), 4 - o);
    BytesShiftedRight(rt, o);
    JoinBytes(mem, rt / Bytes(o), 4 - o);
  }

  lemma Swr(rs: Word, rt: Word, mem: Word)
    ensures var v := LoadStore(0x2e, rs, rt, mem); var o := rs % 4;
      v.Some? && ToBytes(v.value) == ToBytes(rt)[3 - o..] + ToBytes(mem)[o + 1..]
  {
    hide ToBytes, Or, And, Shl, Shr;
    var o := rs % 4;
    ShlBytes(rt, 3 - o);
    ShlBytes(rt % Bytes(o + 1), 3 - o);
    KeepLowBytes(mem, rt % Bytes(o + 1), 3 - o);
    BytesShiftedLeft(rt, 3 - o);
    JoinBytes(rt % Bytes(o + 1) * Bytes(3 - o), mem, 3 - o);
    MultipleHasNoRest(rt % Bytes(o + 1), 3 - o);
    MultipleHasNoRest(rt, 3 - o);
  }

  // The value of byte o, and of the half word at o.
  function ByteOf(mem: Word, o: nat): Word
    requires o < 4
  {
    ToBytes(mem)[o]
  }

  function HalfOf(mem: Word, o: nat): Word
    requires o in {0, 2}
  {
    256 * ByteOf(mem, o) + ByteOf(mem, o + 1)
  }

  lemma DivideTwice(x: nat)
    ensures x / 0x1_0000 == x / 256 / 256 && x / 0x100_0000 == x / 256 / 256 / 256
  {
  }

  lemma FieldIsByte(mem: Word, o: nat)
    requires o < 4
    ensures mem / Bytes(3 - o) % 256 == ByteOf(mem, o)
  {
    DivideTwice(mem);
  }

  lemma FieldIsHalf(mem: Word, o: nat)
    requires o in {0, 2}
    ensures mem / Bytes(2 - o) % 0x1_0000 == HalfOf(mem, o) && HalfOf(mem, o) < 0x1_0000
  {
    hide ToBytes;
    ByteParts(mem);
  }

  lemma SelectField(mem: Word, w: nat, n: nat)
    requires w <= 3 && n <= 3
    ensures Bytes(w) - 1 < WORD_RANGE && And(Shr(mem, 8 * n), Bytes(w) - 1) == mem / Bytes(n) % Bytes(w)
  {
    hide AndBits, Pow2, LowBits, Shr;
    ShrBytes(mem, n);
    OneByBytes();
    LowByBytes(mem / Bytes(n), w);
    AndLowMask(mem / Bytes(n), 8 * w, 32);
  }

  lemma SelectByte(mem: Word, o: nat)
    requires o < 4
    ensures And(Shr(mem, 24 - o * 8), 0xFF) == ByteOf(mem, o)
  {
    hide And, Shr, ByteOf;
    SelectField(mem, 1, 3 - o);
    FieldIsByte(mem, o);
  }

  lemma SelectHalf(mem: Word, o: nat)
    requires o in {0, 2}
    ensures And(Shr(mem, 16 - o * 8), 0xFFFF) == HalfOf(mem, o)
  {
    hide And, Shr, HalfOf;
    SelectField(mem, 2, 2 - o);
    FieldIsHalf(mem, o);
  }

  // lbu and lb
  lemma Lb(rs: Word, rt: Word, mem: Word)
    ensures var b: int := ByteOf(mem, rs % 4); var v := LoadStore(0x20, rs, rt, mem);
      && LoadStore(0x24, rs, rt, mem) == Some(b)
      && v.Some? && Signed(v.value) == if b < 128 then b else b - 256
  {
    hide And, Shr, SE, ByteOf, Pow2, Signed;
    SelectByte(mem, rs % 4);
    FieldIsByte(mem, rs % 4);
    SignedByte(ByteOf(mem, rs % 4));
  }

  // lhu and lh
  lemma Lh(rs: Word, rt: Word, mem: Word)
    ensures var b: int := HalfOf(mem, rs / 2 % 2 * 2); var v := LoadStore(0x21, rs, rt, mem);
      && LoadStore(0x25, rs, rt, mem) == Some(b)
      && v.Some? && Signed(v.value) == if b < 0x8000 then b else b - 0x1_0000
  {
    hide And, Shr, SE, HalfOf, Pow2, Signed;
    SelectHalf(mem, rs / 2 % 2 * 2);
    FieldIsHalf(mem, rs / 2 % 2 * 2);
    SignedHalf(HalfOf(mem, rs / 2 % 2 * 2));
  }

  lemma SignedByte(b: Word)
    requires b < 256
    ensures Signed(SE(b, 8)) == if b < 128 then b else b as int - 256
  {
    hide SE, Signed;
    assert Pow2(7) == 128;
    SignExtend(b, 8);
  }

  lemma SignedHalf(b: Word)
    requires b < 0x1_0000
    ensures Signed(SE(b, 16)) == if b < 0x8000 then b else b as int - 0x1_0000
  {
    hide SE, Signed;
    assert Pow2(7) == 128;
    assert Pow2(15) == 256 * Pow2(7);
    SignExtend(b, 16);
  }

  // sb
  lemma Sb(rs: Word, rt: Word, mem: Word)
    ensures var v := LoadStore(0x28, rs, rt, mem); var o := rs % 4;
      v.Some? && ToBytes(v.value) == ToBytes(mem)[o := rt % 256]
  {
    hide And, Or, Xor, Shl, ToBytes, FromBytes;
    var o := rs % 4;
    OneByBytes();
    InsertBits(mem, rt, 8, 8 * (3 - o));
    FieldsByBytes(mem, rt, 1, 3 - o);
    ReplaceByte(mem, rt % 256, o);
    BytesRoundTrip(ToBytes(mem)[o := rt % 256]);
  }

  // sh
  lemma Sh(rs: Word, rt: Word, mem: Word)
    ensures var v := LoadStore(0x29, rs, rt, mem); var o := rs / 2 % 2 * 2;
      v.Some? && ToBytes(v.value) == ToBytes(mem)[o := rt % 0x1_0000 / 256][o + 1 := rt % 0x1_0000 % 256]
  {
    hide And, Or, Xor, Shl, ToBytes;
    StoreHalf(mem, rt, rs / 2 % 2 * 2);
  }

  lemma StoreHalf(mem: Word, rt: Word, o: nat)
    requires o in {0, 2}
    ensures ToBytes(Or(And(mem, Xor(ALL_ONES, Shl(0xFFFF, 16 - o * 8))), Shl(And(rt, 0xFFFF), 16 - o * 8)))
         == ToBytes(mem)[o := rt % 0x1_0000 / 256][o + 1 := rt % 0x1_0000 % 256]
  {
    hide And, Or, Xor, Shl, ToBytes, FromBytes;
    OneByBytes();
    InsertBits(mem, rt, 16, 8 * (2 - o));
    FieldsByBytes(mem, rt, 2, 2 - o);
    ReplaceHalf(mem, rt % 0x1_0000, o);
    BytesRoundTrip(ToBytes(mem)[o := rt % 0x1_0000 / 256][o + 1 := rt % 0x1_0000 % 256]);
  }

  // Put the low w bits of rt at the w bits of mem from bit k on.
  lemma InsertBits(mem: Word, rt: Word, w: nat, k: nat)
    requires 1 <= w && k + w <= 32
    ensures Pow2(w) - 1 < WORD_RANGE && ShiftLeft(LowBits(ShiftRight(mem, k), w), k) <= mem
    ensures Or(And(mem, Xor(ALL_ONES, Shl(Pow2(w) - 1, k))), Shl(And(rt, Pow2(w) - 1), k))
         == mem - ShiftLeft(LowBits(ShiftRight(mem, k), w), k) + ShiftLeft(LowBits(rt, w), k)
  {
    hide AndBits, OrBits, XorBits, Pow2, LowBits, ShiftLeft, ShiftRight;
    OneByBytes();
    Pow2Le(w, 32);
    Pow2Le(w + k, 32);
    AndLowMask(rt, w, 32);
    SplitBits(rt, w);
    ShiftLeftPow2(w, k);
    ShiftLeftLess(LowBits(rt, w), Pow2(w), k);
    var field := ShiftLeft(Pow2(w) - 1, k);
    XorOnes(ALL_ONES, field, 32);
    InsertField(mem, ALL_ONES - field, LowBits(rt, w), w, k, 32);
  }

  lemma FieldsByBytes(mem: Word, rt: Word, w: nat, n: nat)
    requires 1 <= w <= 2 && n + w <= 4
    ensures ShiftLeft(LowBits(ShiftRight(mem, 8 * n), 8 * w), 8 * n) == mem / Bytes(n) % Bytes(w) * Bytes(n)
    ensures ShiftLeft(LowBits(rt, 8 * w), 8 * n) == rt % Bytes(w) * Bytes(n)
  {
    hide LowBits, ShiftLeft, ShiftRight, Pow2, Bytes;
    ShiftByBytes(mem, n);
    LowByBytes(mem / Bytes(n), w);
    LowByBytes(rt, w);
    ShiftByBytes(mem / Bytes(n) % Bytes(w), n);
    ShiftByBytes(rt % Bytes(w), n);
  }

  lemma ReplaceByte(mem: Word, b: Byte, o: nat)
    requires o < 4
    ensures mem - mem / Bytes(3 - o) % 256 * Bytes(3 - o) + b * Bytes(3 - o) == FromBytes(ToBytes(mem)[o := b])
  {
    hide ToBytes;
    FieldIsByte(mem, o);
    WordRoundTrip(mem);
  }

  lemma ReplaceHalf(mem: Word, half: nat, o: nat)
    requires o in {0, 2} && half < 0x1_0000
    ensures mem - mem / Bytes(2 - o) % 0x1_0000 * Bytes(2 - o) + half * Bytes(2 - o)
         == FromBytes(ToBytes(mem)[o := half / 256][o + 1 := half % 256])
  {
    hide ToBytes;
    FieldIsHalf(mem, o);
    WordRoundTrip(mem);
  }
}
