/** Numbers as bit strings, most significant bit first: the vocabulary of RFC 4648, section 6. */
module BitStrings {
  function Pow2(k: nat): (p: nat)
    ensures p >= 1
  {
    if k == 0 then 1 else 2 * Pow2(k - 1)
  }

  /** The low `w` bits of n, negative n in two's complement. */
  function NumBits(n: int, w: nat): (bits: seq<bool>)
    ensures |bits| == w
    decreases w, n
  {
    if w == 0 then [] else NumBits(n / 2, w - 1) + [n % 2 == 1]
  }

  function BitsNum(bits: seq<bool>): nat {
    if bits == [] then 0
    else 2 * BitsNum(bits[..|bits| - 1]) + (if bits[|bits| - 1] then 1 else 0)
  }

  /** All groups of `w` bits in a row. */
  function Unpack(ns: seq<int>, w: nat): seq<bool> {
    if ns == [] then [] else Unpack(ns[..|ns| - 1], w) + NumBits(ns[|ns| - 1], w)
  }

  /** The numbers held by the complete groups of `w` bits; a shorter tail is dropped. */
  function Pack(bits: seq<bool>, w: nat): seq<int>
    requires w > 0
    decreases |bits|
  {
    if |bits| < w then [] else [BitsNum(bits[..w])] + Pack(bits[w..], w)
  }

  function Zeros(k: nat): seq<bool> {
    seq(k, _ => false)
  }

  /** n shifted right by k places. */
  function Shr(n: int, k: nat): int
    decreases k
  {
    if k == 0 then n else Shr(n / 2, k - 1)
  }

  predicate Below(ns: seq<int>, w: nat) {
    forall i | 0 <= i < |ns| :: 0 <= ns[i] < Pow2(w)
  }

  // ---------- One number ----------

  lemma {:induction false} BitsNumOfNumBits(n: int, w: nat)
    requires 0 <= n < Pow2(w)
    ensures BitsNum(NumBits(n, w)) == n
    decreases w
  {
    if w > 0 {
      BitsNumOfNumBits(n / 2, w - 1);
      assert NumBits(n, w)[..w - 1] == NumBits(n / 2, w - 1);
    }
  }

  lemma {:induction false} NumBitsOfBitsNum(bits: seq<bool>)
    ensures NumBits(BitsNum(bits), |bits|) == bits && BitsNum(bits) < Pow2(|bits|)
  {
    if bits != [] {
      NumBitsOfBitsNum(bits[..|bits| - 1]);
      assert bits == bits[..|bits| - 1] + [bits[|bits| - 1]];
    }
  }

  lemma {:induction false} NumBitsSplit(n: int, a: nat, b: nat)
    ensures NumBits(n, a + b) == NumBits(Shr(n, b), a) + NumBits(n, b)
    decreases b
  {
    if b > 0 {
      NumBitsSplit(n / 2, a, b - 1);
    }
  }

  lemma ModUnique(a: int, p: int, q: int, r: int)
    requires p > 0 && a == p * q + r && 0 <= r < p
    ensures a % p == r
  {
    var d := a / p - q;
    assert p * d == r - a % p;
    assert d >= 1 ==> p * d >= p;
    assert d <= -1 ==> p * d <= -p;
  }

  lemma ModHalf(n: int, p: int)
    requires p > 0
    ensures (n % (2 * p)) / 2 == (n / 2) % p && (n % (2 * p)) % 2 == n % 2
  {
    var q, r := n / (2 * p), n % (2 * p);
    assert n == 2 * (p * q) + r;
    assert n / 2 == p * q + r / 2;
    ModUnique(n / 2, p, q, r / 2);
  }

  /** Only the low m bits of a number matter to its low w <= m bits. */
  lemma {:induction false} NumBitsMod(n: int, w: nat, m: nat)
    requires w <= m
    ensures NumBits(n % Pow2(m), w) == NumBits(n, w)
    decreases w
  {
    if w > 0 {
      ModHalf(n, Pow2(m - 1));
      NumBitsMod(n / 2, w - 1, m - 1);
    }
  }

  lemma {:induction false} ZeroBits(k: nat)
    ensures NumBits(0, k) == Zeros(k)
  {
    if k > 0 {
      ZeroBits(k - 1);
      assert Zeros(k) == Zeros(k - 1) + [false];
    }
  }

  /** The low t bits are all zero exactly when 2^t divides the number. */
  lemma LowZerosIff(x: int, t: nat)
    ensures NumBits(x, t) == Zeros(t) <==> x % Pow2(t) == 0
  {
    NumBitsMod(x, t, t);
    ZeroBits(t);
    BitsNumOfNumBits(x % Pow2(t), t);
    BitsNumOfNumBits(0, t);
  }

  lemma HalfOfShifted(v: int, p: int, x: int)
    ensures (v * (2 * p) + x) / 2 == v * p + x / 2 && (v * (2 * p) + x) % 2 == x % 2
  {
    assert v * (2 * p) == 2 * (v * p);
  }

  // ---------- Sequences of numbers ----------

  lemma {:induction false} UnpackLength(ns: seq<int>, w: nat)
    ensures |Unpack(ns, w)| == |ns| * w
  {
    if ns != [] {
      UnpackLength(ns[..|ns| - 1], w);
      assert |ns| * w == (|ns| - 1) * w + w;
    }
  }

  lemma Associates(a: seq<bool>, b: seq<bool>, c: seq<bool>)
    ensures (a + b) + c == a + (b + c)
  {
  }

  lemma UnpackSnoc(ns: seq<int>, x: int, w: nat)
    ensures Unpack(ns + [x], w) == Unpack(ns, w) + NumBits(x, w)
  {
    assert (ns + [x])[..|ns|] == ns;
  }

  lemma {:induction false} UnpackCons(x: int, ns: seq<int>, w: nat)
    ensures Unpack([x] + ns, w) == NumBits(x, w) + Unpack(ns, w)
  {
    if ns == [] {
      UnpackSnoc([], x, w);
      assert [x] + ns == [] + [x];
    } else {
      var init, last := ns[..|ns| - 1], ns[|ns| - 1];
      UnpackCons(x, init, w);
      UnpackSnoc([x] + init, last, w);
      Associates(NumBits(x, w), Unpack(init, w), NumBits(last, w));
      assert [x] + ns == ([x] + init) + [last];
    }
  }

  lemma PackStep(group: seq<bool>, rest: seq<bool>, w: nat)
    requires w > 0 && |group| == w
    ensures Pack(group + rest, w) == [BitsNum(group)] + Pack(rest, w)
  {
    assert (group + rest)[..w] == group && (group + rest)[w..] == rest;
  }

  /** One more number in front of a packed stream. */
  lemma PackNumber(x: int, stream: seq<bool>, w: nat)
    requires w > 0 && 0 <= x < Pow2(w)
    ensures Pack(NumBits(x, w) + stream, w) == [x] + Pack(stream, w)
  {
    PackStep(NumBits(x, w), stream, w);
    BitsNumOfNumBits(x, w);
  }

  lemma PackUnpackCons(x: int, rest: seq<int>, w: nat, tail: seq<bool>)
    requires w > 0 && 0 <= x < Pow2(w)
    ensures Pack(Unpack([x] + rest, w) + tail, w) == [x] + Pack(Unpack(rest, w) + tail, w)
  {
    var stream := Unpack(rest, w);
    UnpackCons(x, rest, w);
    PackNumber(x, stream + tail, w);
    Associates(NumBits(x, w), stream, tail);
  }

  lemma {:induction false} PackUnpack(ns: seq<int>, w: nat, tail: seq<bool>)
    requires w > 0 && Below(ns, w) && |tail| < w
    ensures Pack(Unpack(ns, w) + tail, w) == ns
  {
    if ns == [] {
      assert Unpack(ns, w) + tail == tail;
    } else {
      PackUnpack(ns[1..], w, tail);
      PackUnpackCons(ns[0], ns[1..], w, tail);
      assert ns == [ns[0]] + ns[1..];
    }
  }

  lemma {:induction false} PackBelow(bits: seq<bool>, w: nat)
    requires w > 0
    ensures Below(Pack(bits, w), w)
    decreases |bits|
  {
    if |bits| >= w {
      PackBelow(bits[w..], w);
      NumBitsOfBitsNum(bits[..w]);
    }
  }

  /** One more group in front of an unpacked stream. */
  lemma UnpackGroup(group: seq<bool>, ns: seq<int>)
    ensures Unpack([BitsNum(group)] + ns, |group|) == group + Unpack(ns, |group|)
  {
    NumBitsOfBitsNum(group);
    UnpackCons(BitsNum(group), ns, |group|);
  }

  lemma UnpackFirst(group: seq<bool>, rest: seq<bool>, packed: seq<int>, tail: seq<bool>)
    requires rest == Unpack(packed, |group|) + tail
    ensures Unpack([BitsNum(group)] + packed, |group|) + tail == group + rest
  {
    UnpackGroup(group, packed);
    Associates(group, Unpack(packed, |group|), tail);
  }

  lemma {:induction false} UnpackPack(bits: seq<bool>, w: nat) returns (tail: seq<bool>)
    requires w > 0
    ensures |tail| < w && bits == Unpack(Pack(bits, w), w) + tail
    decreases |bits|
  {
    if |bits| < w {
      tail := bits;
      assert Unpack([], w) + tail == bits;
    } else {
      tail := UnpackPack(bits[w..], w);
      UnpackFirst(bits[..w], bits[w..], Pack(bits[w..], w), tail);
      assert bits[..w] + bits[w..] == bits;
    }
  }
}
