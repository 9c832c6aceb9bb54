/** JavaScript's 32-bit operators, bit by bit, and what they do to the low bits of a number. */
module Int32Words {
  import opened BitStrings

  /** The 32 bits an operator sees of a number. */
  function Word(value: int): (bits: seq<bool>)
    ensures |bits| == 32
  {
    NumBits(value, 32)
  }

  /** The signed number that 32 bits stand for. */
  function Signed(bits: seq<bool>): int {
    var n := BitsNum(bits);
    if n >= 0x8000_0000 then n - 0x1_0000_0000 else n
  }

  function OrBits(a: seq<bool>, b: seq<bool>): (c: seq<bool>)
    requires |a| == |b|
    ensures |c| == |a|
  {
    seq(|a|, i requires 0 <= i < |a| => a[i] || b[i])
  }

  function AndBits(a: seq<bool>, b: seq<bool>): (c: seq<bool>)
    requires |a| == |b|
    ensures |c| == |a|
  {
    seq(|a|, i requires 0 <= i < |a| => a[i] && b[i])
  }

  /** value << k. */
  function ShiftLeft(value: int, k: nat): int
    requires k < 32
  {
    Signed(Word(value)[k..] + Zeros(k))
  }

  /** value >>> k. */
  function ShiftRight(value: int, k: nat): nat
    requires k < 32
  {
    BitsNum(Zeros(k) + Word(value)[..32 - k])
  }

  /** a | b. */
  function Or(a: int, b: int): int {
    Signed(OrBits(Word(a), Word(b)))
  }

  /** a & b. */
  function And(a: int, b: int): int {
    Signed(AndBits(Word(a), Word(b)))
  }

  // ---------- Words and numbers ----------

  lemma {:induction false} ShiftedOut(n: int, w: nat, m: int)
    ensures NumBits(n + m * Pow2(w), w) == NumBits(n, w)
    decreases w
  {
    if w > 0 {
      HalfOfShifted(m, Pow2(w - 1), n);
      ShiftedOut(n / 2, w - 1, m);
      assert (n + m * Pow2(w)) / 2 == n / 2 + m * Pow2(w - 1);
    }
  }

  lemma WordWidth()
    ensures Pow2(31) == 0x8000_0000 && Pow2(32) == 0x1_0000_0000
  {
    assert Pow2(8) == 256;
    assert Pow2(16) == 0x1_0000;
    assert Pow2(24) == 0x100_0000;
  }

  lemma WordOfSigned(bits: seq<bool>)
    requires |bits| == 32
    ensures Word(Signed(bits)) == bits && Word(BitsNum(bits)) == bits
  {
    NumBitsOfBitsNum(bits);
    WordWidth();
    ShiftedOut(BitsNum(bits), 32, -1);
  }

  /** The low w bits are the last w bits of the word. */
  lemma LowBits(value: int, w: nat)
    requires w <= 32
    ensures NumBits(value, w) == Word(value)[32 - w..]
  {
    NumBitsSplit(value, 32 - w, w);
  }

  lemma {:induction false} ShrOfSmall(x: int, k: nat)
    requires 0 <= x < Pow2(k)
    ensures Shr(x, k) == 0
    decreases k
  {
    if k > 0 {
      ShrOfSmall(x / 2, k - 1);
    }
  }

  lemma WordOfSmall(x: int, k: nat)
    requires k <= 32 && 0 <= x < Pow2(k)
    ensures Word(x) == Zeros(32 - k) + NumBits(x, k)
  {
    NumBitsSplit(x, 32 - k, k);
    ShrOfSmall(x, k);
    ZeroBits(32 - k);
  }

  function Ones(k: nat): (bits: seq<bool>)
    ensures |bits| == k
  {
    seq(k, _ => true)
  }

  lemma {:induction false} OneBits(k: nat)
    ensures NumBits(Pow2(k) - 1, k) == Ones(k)
  {
    if k > 0 {
      OneBits(k - 1);
      assert (Pow2(k) - 1) / 2 == Pow2(k - 1) - 1 && (Pow2(k) - 1) % 2 == 1;
      assert Ones(k) == Ones(k - 1) + [true];
    }
  }

  lemma {:induction false} ZeroNumber(k: nat)
    ensures BitsNum(Zeros(k)) == 0
  {
    if k > 0 {
      ZeroNumber(k - 1);
      assert Zeros(k)[..k - 1] == Zeros(k - 1);
    }
  }

  lemma {:induction false} LeadingZeros(k: nat, bits: seq<bool>)
    ensures BitsNum(Zeros(k) + bits) == BitsNum(bits)
    decreases |bits|
  {
    if bits == [] {
      assert Zeros(k) + bits == Zeros(k);
      ZeroNumber(k);
    } else {
      LeadingZeros(k, bits[..|bits| - 1]);
      assert (Zeros(k) + bits)[..k + |bits| - 1] == Zeros(k) + bits[..|bits| - 1];
    }
  }

  // ---------- What the operators do ----------

  lemma OrAppends(high: seq<bool>, k: nat, low: seq<bool>)
    requires |low| == k
    ensures OrBits(high + Zeros(k), Zeros(|high|) + low) == high + low
  {
  }

  /** (value << k) | x appends the k bits of x, and the oldest k bits of the word fall off. */
  lemma ShiftLeftOrWord(value: int, k: nat, x: int)
    requires k < 32 && 0 <= x < Pow2(k)
    ensures Word(Or(ShiftLeft(value, k), x)) == Word(value)[k..] + NumBits(x, k)
  {
    var high := Word(value)[k..];
    WordOfSigned(high + Zeros(k));
    WordOfSmall(x, k);
    OrAppends(high, k, NumBits(x, k));
    WordOfSigned(high + NumBits(x, k));
  }

  lemma DropThenAppend(word: seq<bool>, w: nat, k: nat, low: seq<bool>)
    requires |word| == 32 && w + k <= 32 && |low| == k
    ensures (word[k..] + low)[32 - w - k..] == word[32 - w..] + low
  {
  }

  /** So however often the word has wrapped, its low bits are the bits shifted in last. */
  lemma ShiftLeftOrBits(value: int, w: nat, k: nat, x: int)
    requires w + k <= 32 && k < 32 && 0 <= x < Pow2(k)
    ensures NumBits(Or(ShiftLeft(value, k), x), w + k) == NumBits(value, w) + NumBits(x, k)
  {
    ShiftLeftOrWord(value, k, x);
    LowBits(Or(ShiftLeft(value, k), x), w + k);
    LowBits(value, w);
    DropThenAppend(Word(value), w, k, NumBits(x, k));
  }

  lemma ShiftLeftBits(value: int, w: nat, k: nat)
    requires w + k <= 32 && k < 32
    ensures NumBits(ShiftLeft(value, k), w + k) == NumBits(value, w) + Zeros(k)
  {
    WordOfSigned(Word(value)[k..] + Zeros(k));
    LowBits(ShiftLeft(value, k), w + k);
    LowBits(value, w);
    DropThenAppend(Word(value), w, k, Zeros(k));
  }

  lemma AndKeeps(bits: seq<bool>, a: nat)
    requires |bits| == 32 && a <= 32
    ensures AndBits(bits, Zeros(32 - a) + Ones(a)) == Zeros(32 - a) + bits[32 - a..]
  {
  }

  lemma {:induction false} Pow2Monotone(a: nat, b: nat)
    requires a <= b
    ensures Pow2(a) <= Pow2(b)
  {
    if a < b {
      Pow2Monotone(a, b - 1);
    }
  }

  /** A mask of a one-bits keeps the low a bits. */
  lemma AndMask(value: int, a: nat, mask: int)
    requires 1 <= a <= 31 && mask == Pow2(a) - 1
    ensures 0 <= And(value, mask) < Pow2(a) && NumBits(And(value, mask), a) == NumBits(value, a)
  {
    var low := NumBits(value, a);
    WordOfSmall(mask, a);
    OneBits(a);
    AndKeeps(Word(value), a);
    LowBits(value, a);
    LeadingZeros(32 - a, low);
    NumBitsOfBitsNum(low);
    Pow2Monotone(a, 31);
    WordWidth();
  }

  /** As a number: the remainder. */
  lemma AndIsMod(value: int, a: nat, mask: int)
    requires 1 <= a <= 31 && mask == Pow2(a) - 1
    ensures And(value, mask) == value % Pow2(a)
  {
    AndMask(value, a, mask);
    NumBitsMod(value, a, a);
    BitsNumOfNumBits(And(value, mask), a);
    BitsNumOfNumBits(value % Pow2(a), a);
  }

  lemma TopOfLow(word: seq<bool>, a: nat, b: nat)
    requires |word| == 32 && a + b <= 32
    ensures word[32 - a - b..] == (Zeros(b) + word[..32 - b])[32 - a..] + word[32 - b..]
  {
  }

  /** (value >>> b) & mask reads the top a of the low a + b bits. */
  lemma ShiftRightBits(value: int, a: nat, b: nat, mask: int)
    requires 1 <= a <= 31 && a + b <= 32 && mask == Pow2(a) - 1
    ensures var x := And(ShiftRight(value, b), mask);
            0 <= x < Pow2(a) && NumBits(value, a + b) == NumBits(x, a) + NumBits(value, b)
  {
    var shifted := Zeros(b) + Word(value)[..32 - b];
    AndMask(ShiftRight(value, b), a, mask);
    WordOfSigned(shifted);
    LowBits(ShiftRight(value, b), a);
    LowBits(value, a + b);
    LowBits(value, b);
    TopOfLow(Word(value), a, b);
  }
}
