/**
  Arithmetic on 64-bit words as the allocator uses it: masks, powers of two, products that
  overflow, and the encoding of pointers in free lists.
 */
module MiWords {
  import opened Arithmetic

  const WORD := 0x1_0000_0000_0000_0000
  const SIZE_MAX := WORD - 1
  const PTRDIFF_MAX := WORD / 2 - 1

  type Word = x: int | 0 <= x < WORD

  /** Bitwise and. */
  function BitAnd(x: nat, y: nat): (r: nat)
    ensures r <= x && r <= y
  {
    if x == 0 || y == 0 then 0 else 2 * BitAnd(x / 2, y / 2) + if x % 2 == 1 && y % 2 == 1 then 1 else 0
  }

  lemma HalfMod(x: nat, m: nat)
    requires m > 0
    ensures x % (2 * m) == 2 * (x / 2 % m) + x % 2
  {
    var h := x / 2;
    var q, r := h / m, h % m;
    assert h == m * q + r;
    assert x == 2 * m * q + (2 * r + x % 2);
    ModIs(x, 2 * m, q, 2 * r + x % 2);
  }

  lemma ModIs(x: nat, m: nat, q: nat, r: nat)
    requires 0 <= r < m && x == m * q + r
    ensures x % m == r
  {
    var d := x / m - q;
    assert m * d == r - x % m;
    OnlyZero(m, d);
  }

  lemma OnlyZero(m: nat, d: int)
    requires 0 - m < m * d < m
    ensures d == 0
  {
  }

  lemma DivBelow(x: nat, a: nat, b: nat)
    requires a > 0 && (x < a * b || x < b)
    ensures x / a < b
  {
    var q := x / a;
    assert x == a * q + x % a;
    MulMono(b, 1, a);
    if q >= b { MulMono(a, b, q); }
  }

  /** Masking with the bits below a power of two is the remainder. */
  lemma {:induction false} MaskIsMod(x: nat, k: nat)
    ensures BitAnd(x, Pow2(k) - 1) == x % Pow2(k)
  {
    if k > 0 {
      MaskIsMod(x / 2, k - 1);
      AndOdd(x, Pow2(k - 1) - 1);
      HalfMod(x, Pow2(k - 1));
    }
  }

  lemma {:induction false} AndOdd(x: nat, m: nat)
    ensures BitAnd(x, 2 * m + 1) == 2 * BitAnd(x / 2, m) + x % 2
  {
    assert (2 * m + 1) / 2 == m;
  }

  lemma {:induction false} AndSelf(x: nat)
    ensures BitAnd(x, x) == x
  {
    if x > 0 { AndSelf(x / 2); }
  }

  /** _mi_is_power_of_two, for words other than 0. */
  predicate IsPowerOfTwo(a: nat)
    requires a > 0
  {
    BitAnd(a, a - 1) == 0
  }

  lemma {:induction false} LogOf(a: nat) returns (k: nat)
    requires a > 0 && IsPowerOfTwo(a)
    ensures a == Pow2(k)
  {
    if a == 1 {
      k := 0;
    } else {
      if a % 2 == 1 { AndSelf(a / 2); }
      assert (a - 1) / 2 == a / 2 - 1;
      k := LogOf(a / 2);
      k := k + 1;
    }
  }

  lemma {:induction false} PowersPass(k: nat)
    ensures IsPowerOfTwo(Pow2(k))
  {
    if k > 0 {
      PowersPass(k - 1);
      DoubleMasked(Pow2(k - 1));
    }
  }

  lemma {:induction false} DoubleMasked(a: nat)
    requires a > 0
    ensures BitAnd(2 * a, 2 * a - 1) == 2 * BitAnd(a, a - 1)
  {
    assert 2 * a / 2 == a && (2 * a - 1) / 2 == a - 1 && 2 * a % 2 == 0;
  }

  /** a is 1, 2, 4 and so on. */
  ghost predicate IsPower(a: nat) { exists k: nat :: a == Pow2(k) }

  /** The test accepts exactly the powers of two. */
  lemma PowerOfTwoIff(a: nat)
    requires a > 0
    ensures IsPowerOfTwo(a) <==> IsPower(a)
  {
    if IsPowerOfTwo(a) { var k := LogOf(a); }
    if IsPower(a) {
      var k: nat :| a == Pow2(k);
      PowersPass(k);
    }
  }

  lemma {:induction false} PowAdd(j: nat, k: nat)
    ensures Pow2(j + k) == Pow2(j) * Pow2(k)
  {
    if j > 0 {
      PowAdd(j - 1, k);
      assert Pow2(j + k) == 2 * (Pow2(j - 1) * Pow2(k)) == Pow2(j) * Pow2(k);
    }
  }

  lemma {:induction false} PowMono(j: nat, k: nat)
    requires j <= k
    ensures Pow2(j) <= Pow2(k)
  {
    if j < k { PowMono(j, k - 1); }
  }

  lemma HalfWord()
    ensures Pow2(32) == 0x1_0000_0000
  {
    assert Pow2(4) == 0x10;
    PowAdd(4, 4);
    PowAdd(8, 8);
    PowAdd(16, 16);
  }

  lemma WordIsPower()
    ensures Pow2(64) == WORD
  {
    HalfWord();
    PowAdd(32, 32);
  }

  /** The remainder of an address does not change when the address wraps around. */
  lemma WrapKeepsRemainder(x: nat, k: nat)
    requires k <= 64
    ensures x % WORD % Pow2(k) == x % Pow2(k)
  {
    WordIsPower();
    PowAdd(k, 64 - k);
    ModMod(x, Pow2(k), Pow2(64 - k));
  }

  lemma ModMod(x: nat, a: nat, b: nat)
    requires a > 0 && b > 0
    ensures a * b > 0 && x % (a * b) % a == x % a
  {
    var w := a * b;
    assert w > 0;
    var q, y := x / w, x % w;
    var c, r := y / a, y % a;
    assert x == w * q + y && y == a * c + r;
    Regroup(a, b, q, c);
    ModIs(x, a, b * q + c, r);
  }

  lemma Regroup(a: nat, b: nat, q: nat, c: nat)
    ensures a * b * q + a * c == a * (b * q + c)
  {
    assert a * b * q == a * (b * q);
  }

  lemma LogBelow(a: Word) returns (k: nat)
    requires a > 0 && IsPowerOfTwo(a)
    ensures k < 64 && a == Pow2(k) && a <= WORD / 2
  {
    k := LogOf(a);
    WordIsPower();
    if k >= 64 { PowMono(64, k); }
    PowMono(k, 63);
  }

  // ---------------------------------------------------------------- products

  const MUL_NO_OVERFLOW := 0x1_0000_0000

  lemma SmallMod(x: nat, m: nat)
    requires x < m
    ensures x % m == x
  {
  }

  /** The product modulo the word size, and whether it overflows. */
  method MulOverflow(count: Word, size: Word) returns (overflow: bool, total: Word)
    ensures overflow <==> count * size > SIZE_MAX
    ensures !overflow ==> total == count * size
  {
    var product := count * size;
    total := product % WORD;
    if product < WORD { SmallMod(product, WORD); }
    overflow := (size >= MUL_NO_OVERFLOW || count >= MUL_NO_OVERFLOW) && size > 0 && SIZE_MAX / size < count;
    ProductFits(count, size);
  }

  lemma ProductFits(count: Word, size: Word)
    ensures size > 0 ==> (SIZE_MAX / size < count <==> count * size > SIZE_MAX)
    ensures size < MUL_NO_OVERFLOW && count < MUL_NO_OVERFLOW ==> count * size <= SIZE_MAX
  {
    if size < MUL_NO_OVERFLOW && count < MUL_NO_OVERFLOW {
      MulMono(size, count, MUL_NO_OVERFLOW - 1);
    }
    if size > 0 { AboveQuotient(SIZE_MAX, size, count); }
  }

  method CountSizeOverflow(count: Word, size: Word) returns (overflow: bool, total: Word)
    ensures overflow <==> count * size > SIZE_MAX
    ensures total == if overflow then SIZE_MAX else count * size
  {
    if count == 1 { return false, size; }
    overflow, total := MulOverflow(count, size);
    if overflow { total := SIZE_MAX; }
  }

  // ---------------------------------------------------------------- pointers in free lists

  /** What a shift by the whole width gives: C leaves it open, and processors give the word itself or 0. */
  datatype FullShift = Keeps | Clears

  function BitOr(x: nat, y: nat): (r: nat)
    decreases x + y
  {
    if x == 0 then y else if y == 0 then x else 2 * BitOr(x / 2, y / 2) + if x % 2 == 1 || y % 2 == 1 then 1 else 0
  }

  function BitXor(x: nat, y: nat): (r: nat)
    decreases x + y
  {
    if x == 0 then y else if y == 0 then x else 2 * BitXor(x / 2, y / 2) + (x % 2 + y % 2) % 2
  }

  lemma XorHalf(x: nat, y: nat)
    ensures BitXor(x, y) / 2 == BitXor(x / 2, y / 2) && BitXor(x, y) % 2 == (x % 2 + y % 2) % 2
  {
  }

  lemma {:induction false} XorTwice(x: nat, y: nat)
    ensures BitXor(BitXor(x, y), y) == x
    decreases x + y
  {
    if x + y > 0 {
      XorTwice(x / 2, y / 2);
      XorHalf(x, y);
      XorHalf(BitXor(x, y), y);
      SameBits(BitXor(BitXor(x, y), y), x, y % 2, BitXor(x, y) % 2);
    }
  }

  lemma SameBits(w: nat, x: nat, b: nat, c: nat)
    requires w / 2 == x / 2 && c == (x % 2 + b) % 2 && w % 2 == (c + b) % 2
    ensures w == x
  {
  }

  lemma {:induction false} XorBelow(x: nat, y: nat, n: nat)
    requires x < Pow2(n) && y < Pow2(n)
    ensures BitXor(x, y) < Pow2(n)
  {
    if n > 0 {
      XorBelow(x / 2, y / 2, n - 1);
      XorHalf(x, y);
    }
  }

  lemma TimesTwice(a: nat, w: nat)
    ensures a * (2 * w) == 2 * (a * w)
  {
  }

  lemma OrDouble(x: nat, b: nat)
    requires BitOr(x, b / 2) == x + b / 2
    ensures BitOr(2 * x, b) == 2 * x + b
  {
    assert 2 * x / 2 == x;
  }

  /** Or is addition where the bits do not meet. */
  lemma {:induction false} OrApart(a: nat, b: nat, n: nat)
    requires b < Pow2(n)
    ensures BitOr(a * Pow2(n), b) == a * Pow2(n) + b
  {
    if n > 0 {
      OrApart(a, b / 2, n - 1);
      OrDouble(a * Pow2(n - 1), b);
      TimesTwice(a, Pow2(n - 1));
    }
  }

  lemma {:induction false} OrSelf(x: nat)
    ensures BitOr(x, x) == x
  {
    if x > 0 { OrSelf(x / 2); }
  }

  function ShiftLeft(x: Word, n: nat, full: FullShift): (r: Word)
    requires n <= 64
  {
    if n < 64 then x * Pow2(n) % WORD else if full.Keeps? then x else 0
  }

  function Quotient(x: Word, a: nat): (r: Word)
    requires a > 0
  {
    DivBelow(x, a, WORD);
    x / a
  }

  function ShiftRight(x: Word, n: nat, full: FullShift): (r: Word)
    requires n <= 64
  {
    if n < 64 then Quotient(x, Pow2(n)) else if full.Keeps? then x else 0
  }

  function Rotl(x: Word, shift: Word, full: FullShift): (r: nat) {
    var n := shift % 64;
    BitOr(ShiftLeft(x, n, full), ShiftRight(x, 64 - n, full))
  }

  function Rotr(x: Word, shift: Word, full: FullShift): (r: nat) {
    var n := shift % 64;
    BitOr(ShiftLeft(x, 64 - n, full), ShiftRight(x, n, full))
  }

  /** The upper n bits of a word and the lower 64 - n bits. */
  lemma Halves(x: Word, n: nat) returns (hi: nat, lo: nat)
    requires 0 < n < 64
    ensures x == hi * Pow2(64 - n) + lo && lo < Pow2(64 - n) && hi < Pow2(n)
  {
    WordIsPower();
    PowAdd(64 - n, n);
    hi, lo := Parts(x, Pow2(64 - n), Pow2(n));
  }

  lemma Parts(x: nat, a: nat, b: nat) returns (hi: nat, lo: nat)
    requires a > 0 && x < a * b
    ensures x == hi * a + lo && lo < a && hi < b
  {
    DivBelow(x, a, b);
    hi, lo := x / a, x % a;
  }

  /** Shifting two joined parts. */
  lemma ShiftParts(hi: nat, lo: nat, a: nat, b: nat)
    requires lo < a && hi < b
    ensures var x := hi * a + lo; x / a == hi && x < a * b && x * b % (a * b) == lo * b
  {
    var x, w := hi * a + lo, a * b;
    ModIs(x, a, hi, lo);
    OnlyZero(a, x / a - hi);
    MulMono(a, hi + 1, b);
    TimesParts(hi, lo, a, b);
    ModIs(x * b, w, hi, lo * b);
  }

  lemma TimesParts(hi: nat, lo: nat, a: nat, b: nat)
    requires lo < a && hi < b
    ensures (hi * a + lo) * b == (a * b) * hi + lo * b && lo * b < a * b
  {
    assert hi * a * b == a * b * hi;
    assert lo * b < a * b by { MulMono(b, lo + 1, a); }
  }

  /** Rotating left exchanges the two parts. */
  lemma RotlParts(hi: nat, lo: nat, shift: Word, full: FullShift)
    requires var n := shift % 64; 0 < n && lo < Pow2(64 - n) && hi < Pow2(n)
    ensures var n := shift % 64; var x := hi * Pow2(64 - n) + lo; x < WORD && Rotl(x, shift, full) == lo * Pow2(n) + hi
  {
    var n := shift % 64;
    WordIsPower();
    PowAdd(64 - n, n);
    ShiftParts(hi, lo, Pow2(64 - n), Pow2(n));
    OrApart(lo, hi, n);
  }

  lemma RotrParts(hi: nat, lo: nat, shift: Word, full: FullShift)
    requires var n := shift % 64; 0 < n && lo < Pow2(64 - n) && hi < Pow2(n)
    ensures var n := shift % 64; var y := lo * Pow2(n) + hi; y < WORD && Rotr(y, shift, full) == hi * Pow2(64 - n) + lo
  {
    var n := shift % 64;
    WordIsPower();
    PowAdd(n, 64 - n);
    ShiftParts(lo, hi, Pow2(n), Pow2(64 - n));
    OrApart(hi, lo, 64 - n);
  }

  lemma {:induction false} RotateNone(x: Word, shift: Word, full: FullShift)
    requires shift % 64 == 0
    ensures Rotl(x, shift, full) == x && Rotr(x, shift, full) == x
  {
    assert Pow2(0) == 1;
    assert ShiftLeft(x, 0, full) == x && ShiftRight(x, 0, full) == x;
    OrSelf(x);
  }

  /** Rotating right undoes rotating left, for every shift. */
  lemma {:induction false} RotateBack(x: Word, shift: Word, full: FullShift)
    ensures Rotl(x, shift, full) < WORD && Rotr(Rotl(x, shift, full), shift, full) == x
  {
    var n := shift % 64;
    if n == 0 {
      RotateNone(x, shift, full);
    } else {
      var hi, lo := Halves(x, n);
      RotlParts(hi, lo, shift, full);
      RotrParts(hi, lo, shift, full);
    }
  }

  datatype Keys = Keys(k0: Word, k1: Word)

  function XorWord(x: Word, y: Word): (r: Word) {
    WordIsPower(); XorBelow(x, y, 64);
    BitXor(x, y)
  }

  /** The first key turns and shifts what the second key has masked. */
  function Mask(x: Word, keys: Keys, full: FullShift): (e: Word) {
    (Rotl(XorWord(x, keys.k1), keys.k0, full) + keys.k0) % WORD
  }

  /** Subtraction that wraps around. */
  function Less(x: Word, y: Word): (r: Word) { (x - y) % WORD }

  function Unmask(e: Word, keys: Keys, full: FullShift): (x: nat) {
    BitXor(Rotr(Less(e, keys.k0), keys.k0, full), keys.k1)
  }

  lemma MaskedLess(x: Word, keys: Keys, full: FullShift)
    ensures Rotl(XorWord(x, keys.k1), keys.k0, full) == Less(Mask(x, keys, full), keys.k0)
  {
    var y := XorWord(x, keys.k1);
    RotateBack(y, keys.k0, full);
    AddBack(Rotl(y, keys.k0, full), keys.k0);
  }

  lemma {:induction false} UnmaskMasked(x: Word, keys: Keys, full: FullShift)
    ensures Unmask(Mask(x, keys, full), keys, full) == x
  {
    var y := XorWord(x, keys.k1);
    RotateBack(y, keys.k0, full);
    MaskedLess(x, keys, full);
    XorTwice(x, keys.k1);
  }

  function PtrEncode(standIn: Word, p: Word, keys: Keys, full: FullShift): (e: Word) {
    Mask(if p == 0 then standIn else p, keys, full)
  }

  function PtrDecode(standIn: Word, e: Word, keys: Keys, full: FullShift): (p: nat) {
    var x := Unmask(e, keys, full);
    if x == standIn then 0 else x
  }

  /** A decoded pointer is the encoded one, but for the stand-in for NULL, which becomes NULL. */
  lemma DecodeUndoesEncode(standIn: Word, p: Word, keys: Keys, full: FullShift)
    ensures PtrDecode(standIn, PtrEncode(standIn, p, keys, full), keys, full) == if p == standIn then 0 else p
  {
    var x := if p == 0 then standIn else p;
    UnmaskMasked(x, keys, full);
  }

  lemma AddBack(r: Word, k: Word)
    ensures Less((r + k) % WORD, k) == r
  {
  }

  // ---------------------------------------------------------------- the bits of an encoded pointer

  /** Bit i of x, counted from the lowest. */
  predicate Bit(x: nat, i: nat) { if i == 0 then x % 2 == 1 else Bit(x / 2, i - 1) }

  lemma {:induction false} XorBit(x: nat, y: nat, i: nat)
    ensures Bit(BitXor(x, y), i) <==> Bit(x, i) != Bit(y, i)
  {
    XorHalf(x, y);
    if i > 0 { XorBit(x / 2, y / 2, i - 1); }
  }

  /** The bits of two joined parts. */
  lemma {:induction false} JoinedBit(a: nat, b: nat, n: nat, i: nat)
    requires b < Pow2(n)
    ensures Bit(a * Pow2(n) + b, i) == if i < n then Bit(b, i) else Bit(a, i - n)
  {
    if n > 0 {
      JoinedHalf(a, b, n);
      if i > 0 { JoinedBit(a, b / 2, n - 1, i - 1); }
    }
  }

  lemma {:induction false} JoinedHalf(a: nat, b: nat, n: nat)
    requires n > 0
    ensures (a * Pow2(n) + b) / 2 == a * Pow2(n - 1) + b / 2 && (a * Pow2(n) + b) % 2 == b % 2
  {
    TimesTwice(a, Pow2(n - 1));
  }

  /** Bit i when the upper n bits and the others change places. */
  lemma {:induction false} ExchangedBit(hi: nat, lo: nat, n: nat, shift: nat, i: nat)
    requires 0 < n < 64 && n == shift % 64 && i < 64 && lo < Pow2(64 - n) && hi < Pow2(n)
    ensures Bit(lo * Pow2(n) + hi, (i + shift) % 64) == Bit(hi * Pow2(64 - n) + lo, i)
  {
    var j := Turned(i, shift);
    JoinedBit(hi, lo, 64 - n, i);
    JoinedBit(lo, hi, n, j);
  }

  lemma Turned(i: nat, shift: nat) returns (j: nat)
    requires i < 64
    ensures var n := shift % 64; j == (i + shift) % 64 == if i < 64 - n then i + n else i + n - 64
  {
    j := (i + shift) % 64;
  }

  /** Rotating left moves bit i up, round the word. */
  lemma {:induction false} RotlBit(x: Word, shift: Word, full: FullShift, i: nat)
    requires i < 64
    ensures Bit(Rotl(x, shift, full), (i + shift) % 64) == Bit(x, i)
  {
    var n := shift % 64;
    if n == 0 {
      RotateNone(x, shift, full);
    } else {
      var hi, lo := Halves(x, n);
      RotlParts(hi, lo, shift, full);
      ExchangedBit(hi, lo, n, shift, i);
    }
  }

  /** Rotating right moves it back down. */
  lemma {:induction false} RotrBit(y: Word, shift: Word, full: FullShift, i: nat)
    requires i < 64
    ensures Bit(Rotr(y, shift, full), i) == Bit(y, (i + shift) % 64)
  {
    var n := shift % 64;
    if n == 0 {
      RotateNone(y, shift, full);
    } else {
      var lo, hi := Halves(y, 64 - n);
      RotrParts(hi, lo, shift, full);
      ExchangedBit(hi, lo, n, shift, i);
    }
  }

  /** An encoded word less the first key holds every bit, masked by the second key and moved round by the first. */
  lemma MaskedBits(x: Word, keys: Keys, full: FullShift, i: nat)
    requires i < 64
    ensures Bit(Less(Mask(x, keys, full), keys.k0), (i + keys.k0) % 64) <==> Bit(x, i) != Bit(keys.k1, i)
  {
    MaskedLess(x, keys, full);
    RotlBit(XorWord(x, keys.k1), keys.k0, full, i);
    XorBit(x, keys.k1, i);
  }

  /** Every bit of a decoded word is found there, whether or not the word was encoded. */
  lemma UnmaskedBits(e: Word, keys: Keys, full: FullShift, i: nat)
    requires i < 64
    ensures Bit(Unmask(e, keys, full), i) <==> Bit(Less(e, keys.k0), (i + keys.k0) % 64) != Bit(keys.k1, i)
  {
    var y := Less(e, keys.k0);
    RotrBit(y, keys.k0, full, i);
    XorBit(Rotr(y, keys.k0, full), keys.k1, i);
  }
}
