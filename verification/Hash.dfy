/** The string hash: an FNV fold on 32-bit words, then Schrage's step of the minimal standard
    generator (multiplication by 16807 modulo 2^31 - 1) on a signed 32-bit long. */
module Hash {

  const WORDS: int := 0x1_0000_0000

  /** size_t: arithmetic is modulo 2^32. */
  type Word = x: int | 0 <= x < WORDS
  type Char = x: int | 0 <= x < 256

  // ---------------------------------------------------------------- exclusive or

  function Pow2(n: nat): nat {
    if n == 0 then 1 else 2 * Pow2(n - 1)
  }

  /** Exclusive or of the lowest `bits` bits, bit by bit from the lowest. */
  function Xor(a: nat, b: nat, bits: nat): nat {
    if bits == 0 then 0 else (a % 2 + b % 2) % 2 + 2 * Xor(a / 2, b / 2, bits - 1)
  }

  lemma {:induction false} XorBound(a: nat, b: nat, bits: nat)
    ensures Xor(a, b, bits) < Pow2(bits)
  {
    if bits > 0 {
      XorBound(a / 2, b / 2, bits - 1);
    }
  }

  lemma {:induction false} XorCommutes(a: nat, b: nat, bits: nat)
    ensures Xor(a, b, bits) == Xor(b, a, bits)
  {
    if bits > 0 {
      XorCommutes(a / 2, b / 2, bits - 1);
    }
  }

  lemma {:induction false} XorTwice(a: nat, b: nat, bits: nat)
    requires a < Pow2(bits)
    ensures Xor(Xor(a, b, bits), b, bits) == a
  {
    if bits > 0 {
      XorTwice(a / 2, b / 2, bits - 1);
      LowBit(a % 2, b % 2);
      var rest := Xor(a / 2, b / 2, bits - 1);
      HalfOf((a % 2 + b % 2) % 2, rest);
      assert Xor(a, b, bits) == (a % 2 + b % 2) % 2 + 2 * rest;
    }
  }

  lemma HalfOf(bit: nat, rest: nat)
    requires bit < 2
    ensures (bit + 2 * rest) % 2 == bit && (bit + 2 * rest) / 2 == rest
  {
  }

  lemma LowBit(x: nat, y: nat)
    requires x < 2 && y < 2
    ensures ((x + y) % 2 + y) % 2 == x
  {
  }

  lemma WordBits()
    ensures Pow2(32) == WORDS
  {
    assert Pow2(8) == 256;
    Pow2Sum(8, 8);
    Pow2Sum(16, 16);
  }

  lemma {:induction false} Pow2Sum(a: nat, b: nat)
    ensures Pow2(a + b) == Pow2(a) * Pow2(b)
  {
    if a > 0 {
      Pow2Sum(a - 1, b);
    }
  }

  // ---------------------------------------------------------------- the fold

  const OFFSET_BASIS: Word := 2166136261

  function Scale(v: Word): Word {
    16777619 * v % WORDS
  }

  function Unscale(v: Word): Word {
    899433627 * v % WORDS
  }

  /** (size_t) of a signed char, given as its byte: the sign is extended. */
  function Widen(c: Char): Word {
    if c < 128 then c else c + 0xFFFF_FF00
  }

  function XorWord(a: Word, b: Word): Word {
    XorBound(a, b, 32);
    WordBits();
    Xor(a, b, 32)
  }

  function Mix(v: Word, c: Char): Word {
    XorWord(Scale(v), Widen(c))
  }

  function Unmix(w: Word, c: Char): Word {
    Unscale(XorWord(w, Widen(c)))
  }

  function Fold(v: Word, s: seq<Char>): Word
    decreases |s|
  {
    if s == [] then v else Fold(Mix(v, s[0]), s[1..])
  }

  /** Bit `i` of a number. */
  function Bit(n: nat, i: nat): nat {
    if i == 0 then n % 2 else Bit(n / 2, i - 1)
  }

  /** Exclusive or, bit by bit: set where the two differ. */
  lemma {:induction false} XorBits(a: nat, b: nat, bits: nat, i: nat)
    requires i < bits
    ensures Bit(Xor(a, b, bits), i) == if Bit(a, i) == Bit(b, i) then 0 else 1
  {
    BitIsBit(a, i);
    BitIsBit(b, i);
    var rest := Xor(a / 2, b / 2, bits - 1);
    HalfOf((a % 2 + b % 2) % 2, rest);
    if i > 0 {
      XorBits(a / 2, b / 2, bits - 1, i - 1);
    } else {
      LowBit(a % 2, b % 2);
    }
  }

  lemma {:induction false} BitIsBit(n: nat, i: nat)
    ensures Bit(n, i) == 0 || Bit(n, i) == 1
  {
    if i > 0 {
      BitIsBit(n / 2, i - 1);
    }
  }

  /** A number is its bits. */
  lemma {:induction false} BitsDecide(a: nat, b: nat, bits: nat)
    requires a < Pow2(bits) && b < Pow2(bits) && forall i: nat :: i < bits ==> Bit(a, i) == Bit(b, i)
    ensures a == b
  {
    if bits > 0 {
      assert Bit(a, 0) == Bit(b, 0);
      forall i: nat | i < bits - 1 ensures Bit(a / 2, i) == Bit(b / 2, i) {
        assert Bit(a, i + 1) == Bit(b, i + 1);
      }
      BitsDecide(a / 2, b / 2, bits - 1);
    }
  }

  lemma {:induction false} XorNothing(a: nat, bits: nat)
    requires a < Pow2(bits)
    ensures Xor(a, 0, bits) == a
  {
    if bits > 0 {
      XorNothing(a / 2, bits - 1);
    }
  }

  lemma LongRange(x: int)
    ensures IsLong(x) <==> -2147483648 <= x <= 2147483647
  {
  }

  /** A signed char widens to the word congruent to it. */
  lemma WidensSigned(c: Char)
    ensures Signed(Widen(c)) == if c < 128 then c else c - 256
  {
  }

  /** Two published values of the 32-bit FNV-1 hash: of the empty string and of "a". */
  lemma KnownHashes()
    ensures Fold(OFFSET_BASIS, []) == 0x811C9DC5
    ensures Fold(OFFSET_BASIS, [0x61]) == 0x050C5D7E
  {
    assert 16777619 * 2166136261 == 8461673 * WORDS + 84696351;
    ModulusUnique(16777619 * 2166136261, 8461673, 84696351);
    XorSmall();
    assert [0x61][1..] == [];
  }

  lemma XorSmall()
    ensures Xor(84696351, 0x61, 32) == 0x050C5D7E
  {
    assert Pow2(8) == 256;
    Pow2Sum(8, 8);
    Pow2Sum(16, 8);
    assert Pow2(25) == 2 * Pow2(24);
    XorNothing(661690, 25);
    assert Xor(1323380, 1, 26) == 1323381;
    assert Xor(2646760, 3, 27) == 2646763;
    assert Xor(5293521, 6, 28) == 5293527;
    assert Xor(10587043, 12, 29) == 10587055;
    assert Xor(21174087, 24, 30) == 21174111;
    assert Xor(42348175, 48, 31) == 42348223;
    assert Xor(84696351, 97, 32) == 84696446;
  }

  /** _Hash_value. */
  method HashValue(s: seq<Char>) returns (v: Word)
    ensures v == Fold(OFFSET_BASIS, s)
  {
    v := OFFSET_BASIS;
    var i := 0;
    while i < |s|
      invariant i <= |s| && Fold(v, s[i..]) == Fold(OFFSET_BASIS, s)
    {
      assert s[i..][1..] == s[i + 1..];
      v := Mix(v, s[i]);
      i := i + 1;
    }
  }

  lemma ModulusUnique(a: int, q: int, r: int)
    requires a == WORDS * q + r && 0 <= r < WORDS
    ensures a % WORDS == r
  {
    var d := a / WORDS - q;
    assert a % WORDS - r == -WORDS * d;
  }

  /** The two multipliers are inverse to each other modulo 2^32. */
  lemma ScaleInverse(v: Word)
    ensures Unscale(Scale(v)) == v
    ensures Scale(Unscale(v)) == v
  {
    var a, b := 16777619 * v / WORDS, 899433627 * v / WORDS;
    assert 16777619 * 899433627 == 1 + 3513497 * WORDS;
    ModulusUnique(899433627 * Scale(v), 3513497 * v - 899433627 * a, v);
    ModulusUnique(16777619 * Unscale(v), 3513497 * v - 16777619 * b, v);
  }

  /** Each step can be undone: for a fixed character it is a bijection on words. */
  lemma MixInverse(v: Word, c: Char)
    ensures Unmix(Mix(v, c), c) == v
    ensures Mix(Unmix(v, c), c) == v
  {
    WordBits();
    XorTwice(Scale(v), Widen(c), 32);
    XorTwice(v, Widen(c), 32);
    ScaleInverse(v);
    ScaleInverse(XorWord(v, Widen(c)));
  }

  lemma {:induction false} FoldConcat(v: Word, a: seq<Char>, b: seq<Char>)
    ensures Fold(v, a + b) == Fold(Fold(v, a), b)
    decreases |a|
  {
    if a == [] {
      assert a + b == b;
    } else {
      assert (a + b)[1..] == a[1..] + b;
      FoldConcat(Mix(v, a[0]), a[1..], b);
    }
  }

  /** A common suffix never makes two states meet. */
  lemma {:induction false} FoldInjective(v: Word, w: Word, s: seq<Char>)
    ensures Fold(v, s) == Fold(w, s) <==> v == w
    decreases |s|
  {
    if s != [] {
      MixInverse(v, s[0]);
      MixInverse(w, s[0]);
      FoldInjective(Mix(v, s[0]), Mix(w, s[0]), s[1..]);
    }
  }

  /** For a fixed state two characters never lead to the same word. */
  lemma MixSeparates(v: Word, c: Char, d: Char)
    ensures Mix(v, c) == Mix(v, d) <==> c == d
  {
    WordBits();
    XorCommutes(Scale(v), Widen(c), 32);
    XorCommutes(Scale(v), Widen(d), 32);
    XorTwice(Widen(c), Scale(v), 32);
    XorTwice(Widen(d), Scale(v), 32);
  }

  /** Two strings that differ in exactly one position never collide. */
  lemma OneCharacterSeparates(v: Word, a: seq<Char>, c: Char, d: Char, b: seq<Char>)
    requires c != d
    ensures Fold(v, a + [c] + b) != Fold(v, a + [d] + b)
  {
    var u := Fold(v, a);
    FoldAround(v, a, c, b);
    FoldAround(v, a, d, b);
    MixSeparates(u, c, d);
    FoldInjective(Mix(u, c), Mix(u, d), b);
  }

  lemma FoldAround(v: Word, a: seq<Char>, c: Char, b: seq<Char>)
    ensures Fold(v, a + [c] + b) == Fold(Mix(Fold(v, a), c), b)
  {
    FoldConcat(v, a + [c], b);
    FoldConcat(v, a, [c]);
  }

  // ---------------------------------------------------------------- Schrage's step

  const M: int := 2147483647
  const INT_MIN: int := -2147483648

  predicate IsLong(x: int) {
    INT_MIN <= x <= M
  }

  /** C division truncates towards zero. */
  function Quot(x: int): int {
    if x >= 0 then x / 127773 else -(-x / 127773)
  }

  /** The body of _Hash::operator() after ldiv; every operation must fit a 32-bit long. */
  method SchrageStep(x: int) returns (r: int)
    requires IsLong(x)
    ensures 0 <= r < M && r == 16807 * x % M
  {
    var quot := Quot(x);
    var rem := x - 127773 * quot;
    Fits(x);
    assert IsLong(quot) && IsLong(rem) && IsLong(16807 * rem) && IsLong(2836 * quot);
    r := 16807 * rem - 2836 * quot;
    assert IsLong(r);
    Remainder(16807 * x, quot, r);
    if r < 0 {
      r := r + M;
      assert IsLong(r);
    }
  }

  lemma Fits(x: int)
    requires IsLong(x)
    ensures var q := Quot(x); var rem := x - 127773 * q;
            && -16807 <= q <= 16807 && -127773 < rem < 127773
            && (if x >= 0 then q >= 0 && rem >= 0 else q <= 0 && rem <= 0)
            && IsLong(16807 * rem) && -M < 16807 * rem - 2836 * q < M
  {
  }

  /** 16807 * x = M * q + r when r is the difference Schrage's method computes. */
  lemma Remainder(a: int, q: int, r: int)
    requires a == M * q + r && -M < r < M
    ensures a % M == if r < 0 then r + M else r
  {
    ModUnique(a, if r < 0 then q - 1 else q, if r < 0 then r + M else r);
  }

  lemma ModUnique(a: int, q: int, r: int)
    requires a == M * q + r && 0 <= r < M
    ensures a % M == r
  {
    var d := a / M - q;
    assert a % M - r == -M * d;
  }

  function Step(x: int): int {
    16807 * x % M
  }

  function Unstep(y: int): int {
    1407677000 * y % M
  }

  /** On [0, M) the step is a bijection; its inverse multiplies by 1407677000. */
  lemma StepInverse(x: int)
    requires 0 <= x < M
    ensures 0 <= Step(x) < M && Unstep(Step(x)) == x
    ensures 0 <= Unstep(x) < M && Step(Unstep(x)) == x
  {
    var a, b := 16807 * x / M, 1407677000 * x / M;
    assert Step(x) == 16807 * x - M * a && Unstep(x) == 1407677000 * x - M * b;
    assert 16807 * 1407677000 == 1 + 11017 * M;
    ModUnique(1407677000 * Step(x), 11017 * x - 1407677000 * a, x);
    ModUnique(16807 * Unstep(x), 11017 * x - 16807 * b, x);
  }

  /** Two longs are sent to the same value exactly when they are congruent modulo M; within 32 bits
      that means equal, or apart by M or 2M. */
  lemma StepCollides(x: int, y: int)
    requires IsLong(x) && IsLong(y)
    ensures Step(x) == Step(y) <==> x - y in {0, M, -M, 2 * M, -2 * M}
  {
    StepResidue(x);
    StepResidue(y);
    var p, q := x % M, y % M;
    StepInverse(p);
    StepInverse(q);
    assert x == M * (x / M) + p && y == M * (y / M) + q;
    assert -2 <= x / M <= 1 && -2 <= y / M <= 1;
  }

  lemma StepResidue(x: int)
    ensures Step(x) == Step(x % M)
  {
    var q := x / M;
    var s := 16807 * (x % M) / M;
    assert 16807 * x == M * (16807 * q + s) + Step(x % M);
    ModUnique(16807 * x, 16807 * q + s, Step(x % M));
  }

  // ---------------------------------------------------------------- the whole hash

  /** A size_t read as a long. */
  function Signed(w: Word): int {
    if w <= M then w else w - WORDS
  }

  /** _Hash<std::string>::operator(). */
  method HashString(s: seq<Char>) returns (h: Word)
    ensures h == Step(Signed(Fold(OFFSET_BASIS, s))) && h < M
  {
    var v := HashValue(s);
    h := SchrageStep(Signed(v));
  }

  /** Strings whose folds differ collide in the end only when the words are apart by M or 2M, modulo 2^32. */
  lemma HashCollides(s: seq<Char>, t: seq<Char>)
    ensures var v, w := Fold(OFFSET_BASIS, s), Fold(OFFSET_BASIS, t);
            Step(Signed(v)) == Step(Signed(w)) <==> Signed(v) - Signed(w) in {0, M, -M, 2 * M, -2 * M}
    ensures var v, w := Fold(OFFSET_BASIS, s), Fold(OFFSET_BASIS, t);
            Signed(v) == Signed(w) <==> v == w
  {
    StepCollides(Signed(Fold(OFFSET_BASIS, s)), Signed(Fold(OFFSET_BASIS, t)));
  }
}
