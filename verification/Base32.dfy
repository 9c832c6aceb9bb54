/** The Base32 codec, loop by loop on unmasked 32-bit integers. */
module Base32 {
  import opened BitStrings
  import opened Int32Words

  type byte = x: int | 0 <= x < 256

  const ALPHABET: string := "ABCDEFGHIJKLMNOPQRSTUVWXYZ234567"

  lemma Widths()
    ensures Pow2(5) == 32 && Pow2(8) == 256
  {
  }

  // ---------- Alphabet ----------

  function IndexOf(ch: char): (d: int)
    ensures -1 <= d < 32
  {
    if 'A' <= ch <= 'Z' then ch as int - 'A' as int
    else if '2' <= ch <= '7' then 26 + (ch as int - '2' as int)
    else -1
  }

  function Letter(d: int): char
    requires 0 <= d < 32
  {
    ALPHABET[d]
  }

  lemma LetterOfIndex(ch: char)
    requires IndexOf(ch) >= 0
    ensures Letter(IndexOf(ch)) == ch
  {
  }

  lemma IndexOfLetter(d: int)
    requires 0 <= d < 32
    ensures IndexOf(Letter(d)) == d
  {
  }

  /** `indexOf` finds the one position of an alphabet character and -1 for any other. */
  lemma IndexOfIsPosition(ch: char)
    ensures IndexOf(ch) >= 0 ==> Letter(IndexOf(ch)) == ch
    ensures forall d | 0 <= d < 32 :: Letter(d) == ch ==> IndexOf(ch) == d
  {
    if IndexOf(ch) >= 0 {
      LetterOfIndex(ch);
    }
    forall d | 0 <= d < 32 ensures Letter(d) == ch ==> IndexOf(ch) == d {
      IndexOfLetter(d);
    }
  }

  predicate InAlphabet(s: string) {
    forall i | 0 <= i < |s| :: IndexOf(s[i]) >= 0
  }

  function Text(digits: seq<int>): (s: string)
    requires Below(digits, 5)
    ensures |s| == |digits|
  {
    Widths();
    seq(|digits|, i requires 0 <= i < |digits| => Letter(digits[i]))
  }

  function Digits(s: string): (digits: seq<int>)
    ensures |digits| == |s|
    ensures InAlphabet(s) ==> Below(digits, 5)
  {
    Widths();
    seq(|s|, i requires 0 <= i < |s| => IndexOf(s[i]))
  }

  lemma DigitsOfText(digits: seq<int>)
    requires Below(digits, 5)
    ensures InAlphabet(Text(digits)) && Digits(Text(digits)) == digits
  {
    Widths();
    forall i | 0 <= i < |digits| ensures IndexOf(Text(digits)[i]) == digits[i] {
      IndexOfIsPosition(Letter(digits[i]));
    }
  }

  lemma TextOfDigits(s: string)
    requires InAlphabet(s)
    ensures Text(Digits(s)) == s
  {
    forall i | 0 <= i < |s| ensures Letter(IndexOf(s[i])) == s[i] {
      IndexOfIsPosition(s[i]);
    }
  }

  // ---------- Section 6 of RFC 4648, without padding characters ----------

  /** Zero bits needed to complete the last group of five. */
  function Pad(n: nat): nat {
    (5 - n % 5) % 5
  }

  function EncodeSpec(bytes: seq<int>): (digits: seq<int>)
    ensures Below(digits, 5)
  {
    var bits := Unpack(bytes, 8);
    PackBelow(bits + Zeros(Pad(|bits|)), 5);
    Pack(bits + Zeros(Pad(|bits|)), 5)
  }

  function DecodeSpec(digits: seq<int>): (bytes: seq<int>)
    ensures Below(bytes, 8)
  {
    PackBelow(Unpack(digits, 5), 8);
    Pack(Unpack(digits, 5), 8)
  }

  // ---------- The loops ----------

  /** One more number of k bits enters the accumulator. */
  lemma Feed(done: seq<bool>, xs: seq<int>, i: nat, value: int, bits: nat, k: nat)
    requires i < |xs| && bits + k <= 32 && k < 32 && 0 <= xs[i] < Pow2(k)
    requires done + NumBits(value, bits) == Unpack(xs[..i], k)
    ensures done + NumBits(Or(ShiftLeft(value, k), xs[i]), bits + k) == Unpack(xs[..i + 1], k)
  {
    ShiftLeftOrBits(value, bits, k, xs[i]);
    assert xs[..i + 1][..i] == xs[..i];
    assert done + (NumBits(value, bits) + NumBits(xs[i], k)) == done + NumBits(value, bits) + NumBits(xs[i], k);
  }

  /** The oldest k bits leave the accumulator. */
  lemma Emit(out: seq<int>, x: int, k: nat, held: seq<bool>, rest: seq<bool>)
    requires held == NumBits(x, k) + rest
    ensures Unpack(out + [x], k) + rest == Unpack(out, k) + held
  {
    UnpackSnoc(out, x, k);
    Associates(Unpack(out, k), NumBits(x, k), rest);
  }

  lemma BelowSnoc(out: seq<int>, x: int, k: nat)
    requires Below(out, k) && 0 <= x < Pow2(k)
    ensures Below(out + [x], k)
  {
  }

  lemma TextSnoc(digits: seq<int>, digit: int)
    requires Below(digits, 5) && 0 <= digit < 32
    ensures Below(digits + [digit], 5) && Text(digits + [digit]) == Text(digits) + [Letter(digit)]
  {
    Widths();
  }

  /** The last, zero-filled digit. */
  lemma LastDigit(value: int, bits: nat)
    requires 0 < bits < 5
    ensures var x := And(ShiftLeft(value, 5 - bits), 31);
            0 <= x < 32 && NumBits(x, 5) == NumBits(value, bits) + Zeros(5 - bits)
  {
    Widths();
    AndMask(ShiftLeft(value, 5 - bits), 5, 31);
    ShiftLeftBits(value, bits, 5 - bits);
  }

  lemma Finish(out: seq<int>, value: int, bits: nat, x: int)
    requires 0 < bits < 5 && NumBits(x, 5) == NumBits(value, bits) + Zeros(5 - bits)
    ensures Unpack(out + [x], 5) == Unpack(out, 5) + NumBits(value, bits) + Zeros(5 - bits)
  {
    UnpackSnoc(out, x, 5);
    Associates(Unpack(out, 5), NumBits(value, bits), Zeros(5 - bits));
  }

  /** The numbers emitted so far and the bits still held are exactly the bits taken in so far. */
  ghost predicate InStep(out: seq<int>, k: nat, value: int, bits: nat, taken: seq<int>, m: nat) {
    Below(out, k) && Unpack(out, k) + NumBits(value, bits) == Unpack(taken, m)
  }

  lemma TakeByte(out: seq<int>, value: int, bits: nat, buffer: seq<byte>, i: nat)
    requires i < |buffer| && bits < 5 && InStep(out, 5, value, bits, buffer[..i], 8)
    ensures InStep(out, 5, Or(ShiftLeft(value, 8), buffer[i]), bits + 8, buffer[..i + 1], 8)
  {
    Widths();
    Feed(Unpack(out, 5), buffer, i, value, bits, 8);
  }

  lemma GiveDigit(out: seq<int>, value: int, bits: nat, taken: seq<int>)
    requires 5 <= bits <= 12 && InStep(out, 5, value, bits, taken, 8)
    ensures var x := And(ShiftRight(value, bits - 5), 31);
            0 <= x < 32 && InStep(out + [x], 5, value, bits - 5, taken, 8) && Text(out + [x]) == Text(out) + [Letter(x)]
  {
    var x := And(ShiftRight(value, bits - 5), 31);
    Widths();
    ShiftRightBits(value, 5, bits - 5, 31);
    Emit(out, x, 5, NumBits(value, bits), NumBits(value, bits - 5));
    TextSnoc(out, x);
  }

  lemma TakeDigit(out: seq<int>, value: int, bits: nat, digits: seq<int>, i: nat)
    requires i < |digits| && bits < 8 && 0 <= digits[i] < 32 && InStep(out, 8, value, bits, digits[..i], 5)
    ensures InStep(out, 8, Or(ShiftLeft(value, 5), digits[i]), bits + 5, digits[..i + 1], 5)
  {
    Widths();
    Feed(Unpack(out, 8), digits, i, value, bits, 5);
  }

  lemma GiveByte(out: seq<int>, value: int, bits: nat, taken: seq<int>)
    requires 8 <= bits <= 12 && InStep(out, 8, value, bits, taken, 5)
    ensures InStep(out + [And(ShiftRight(value, bits - 8), 255)], 8, value, bits - 8, taken, 5)
  {
    var x := And(ShiftRight(value, bits - 8), 255);
    Widths();
    ShiftRightBits(value, 8, bits - 8, 255);
    Emit(out, x, 8, NumBits(value, bits), NumBits(value, bits - 8));
    BelowSnoc(out, x, 8);
  }

  /** Digits that spell out the padded bit string are the specified ones. */
  lemma OnlyEncoding(digits: seq<int>, bytes: seq<int>)
    requires Below(digits, 5)
    requires Unpack(digits, 5) == Unpack(bytes, 8) + Zeros(Pad(|Unpack(bytes, 8)|))
    ensures digits == EncodeSpec(bytes)
  {
    PackUnpack(digits, 5, []);
    assert Unpack(digits, 5) + [] == Unpack(digits, 5);
  }

  lemma PadOf(n: nat, q: nat, bits: nat)
    requires n == q * 5 + bits && bits < 5
    ensures Pad(n) == if bits == 0 then 0 else 5 - bits
  {
  }

  lemma EncodeEnd(out: seq<int>, value: int, bits: nat, buffer: seq<byte>)
    requires bits < 5 && InStep(out, 5, value, bits, buffer, 8)
    ensures bits == 0 ==> out == EncodeSpec(buffer)
    ensures bits > 0 ==>
              var x := And(ShiftLeft(value, 5 - bits), 31);
              0 <= x < 32 && out + [x] == EncodeSpec(buffer) && Text(out + [x]) == Text(out) + [Letter(x)]
  {
    UnpackLength(out, 5);
    var stream := Unpack(buffer, 8);
    PadOf(|stream|, |out|, bits);
    if bits > 0 {
      var x := And(ShiftLeft(value, 5 - bits), 31);
      LastDigit(value, bits);
      Finish(out, value, bits, x);
      TextSnoc(out, x);
      OnlyEncoding(out + [x], buffer);
    } else {
      assert NumBits(value, 0) == [] && Zeros(0) == [];
      OnlyEncoding(out, buffer);
    }
  }

  method Base32Encode(buffer: seq<byte>) returns (output: string)
    ensures output == Text(EncodeSpec(buffer))
  {
    var bits := 0;
    var value := 0;
    output := "";
    ghost var digits: seq<int> := [];
    for i := 0 to |buffer|
      invariant 0 <= bits < 5
      invariant InStep(digits, 5, value, bits, buffer[..i], 8) && output == Text(digits)
    {
      TakeByte(digits, value, bits, buffer, i);
      value := Or(ShiftLeft(value, 8), buffer[i]);
      bits := bits + 8;
      while bits >= 5
        invariant 0 <= bits <= 12
        invariant InStep(digits, 5, value, bits, buffer[..i + 1], 8) && output == Text(digits)
      {
        var digit := And(ShiftRight(value, bits - 5), 31);
        GiveDigit(digits, value, bits, buffer[..i + 1]);
        output := output + [Letter(digit)];
        digits := digits + [digit];
        bits := bits - 5;
      }
    }
    assert buffer[..|buffer|] == buffer;
    EncodeEnd(digits, value, bits, buffer);
    if bits > 0 {
      output := output + [Letter(And(ShiftLeft(value, 5 - bits), 31))];
    }
  }

  datatype Decoded = Bytes(bytes: seq<int>) | InvalidCharacter

  function Upper(s: string): (u: string)
    ensures |u| == |s|
  {
    seq(|s|, i requires 0 <= i < |s| => if 'a' <= s[i] <= 'z' then ((s[i] as int) - 32) as char else s[i])
  }

  /** Everything up to the last character that is not '='. */
  function StripPadding(s: string): string {
    if s != [] && s[|s| - 1] == '=' then StripPadding(s[..|s| - 1]) else s
  }

  predicate IsSpace(c: char) {
    c == ' ' || '\t' <= c <= '\r'
  }

  function RemoveSpace(s: string): string {
    if s == [] then []
    else (if IsSpace(s[0]) then [] else [s[0]]) + RemoveSpace(s[1..])
  }

  function Cleaned(s: string): string {
    RemoveSpace(StripPadding(Upper(s)))
  }

  function DecodeCleaned(cleaned: string): Decoded {
    if InAlphabet(cleaned) then Bytes(DecodeSpec(Digits(cleaned))) else InvalidCharacter
  }

  function Decode(s: string): Decoded {
    DecodeCleaned(Cleaned(s))
  }

  lemma DecodeEnd(out: seq<int>, value: int, bits: nat, digits: seq<int>)
    requires bits < 8 && InStep(out, 8, value, bits, digits, 5)
    ensures out == DecodeSpec(digits)
  {
    PackUnpack(out, 8, NumBits(value, bits));
  }

  lemma InAlphabetSnoc(s: string, i: nat)
    requires i < |s| && InAlphabet(s[..i]) && IndexOf(s[i]) >= 0
    ensures InAlphabet(s[..i + 1])
  {
    assert forall k | 0 <= k < i :: s[..i + 1][k] == s[..i][k];
  }

  method DecodeLoop(cleaned: string) returns (r: Decoded)
    ensures r == DecodeCleaned(cleaned)
  {
    var bits := 0;
    var value := 0;
    var bytes: seq<int> := [];
    for i := 0 to |cleaned|
      invariant 0 <= bits < 8
      invariant InAlphabet(cleaned[..i])
      invariant InStep(bytes, 8, value, bits, Digits(cleaned)[..i], 5)
    {
      var idx := IndexOf(cleaned[i]);
      if idx < 0 {
        return InvalidCharacter;
      }
      InAlphabetSnoc(cleaned, i);
      TakeDigit(bytes, value, bits, Digits(cleaned), i);
      value := Or(ShiftLeft(value, 5), idx);
      bits := bits + 5;
      if bits >= 8 {
        GiveByte(bytes, value, bits, Digits(cleaned)[..i + 1]);
        bytes := bytes + [And(ShiftRight(value, bits - 8), 255)];
        bits := bits - 8;
      }
    }
    assert cleaned[..|cleaned|] == cleaned && Digits(cleaned)[..|cleaned|] == Digits(cleaned);
    DecodeEnd(bytes, value, bits, Digits(cleaned));
    r := Bytes(bytes);
  }

  method Base32Decode(input: string) returns (r: Decoded)
    ensures r == Decode(input)
  {
    var cleaned := Cleaned(input);
    r := DecodeLoop(cleaned);
  }
}
