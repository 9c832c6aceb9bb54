/** Round trips of the Base32 codec, in both orders, and the output lengths. */
module Base32Laws {
  import opened BitStrings
  import opened Base32

  lemma InAlphabetTail(s: string)
    requires s != [] && InAlphabet(s)
    ensures InAlphabet(s[1..])
  {
    forall i | 0 <= i < |s| - 1 ensures IndexOf(s[1..][i]) >= 0 {
      assert s[1..][i] == s[i + 1];
    }
  }

  lemma {:induction false} NoSpaces(s: string)
    requires InAlphabet(s)
    ensures RemoveSpace(s) == s
  {
    if s != [] {
      assert IndexOf(s[0]) >= 0;
      InAlphabetTail(s);
      NoSpaces(s[1..]);
    }
  }

  lemma CleanedAlphabet(s: string)
    requires InAlphabet(s)
    ensures Cleaned(s) == s
  {
    assert Upper(s) == s;
    assert StripPadding(s) == s;
    NoSpaces(s);
  }

  lemma MultipleLeavesNoTail(n: nat, q: nat, t: nat)
    requires n % 5 == 0 && n == q * 5 + t && t < 5
    ensures t == 0
  {
  }

  lemma WholeGroups(bits: seq<bool>)
    requires |bits| % 5 == 0
    ensures Unpack(Pack(bits, 5), 5) == bits
  {
    var tail := UnpackPack(bits, 5);
    UnpackLength(Pack(bits, 5), 5);
    MultipleLeavesNoTail(|bits|, |Pack(bits, 5)|, |tail|);
  }

  lemma PaddedToFive(n: nat)
    ensures (n + Pad(n)) % 5 == 0
  {
  }

  /** The digits spell out the zero-padded bits, which fill whole groups of five. */
  lemma EncodingSpells(bytes: seq<int>)
    ensures Unpack(EncodeSpec(bytes), 5) == Unpack(bytes, 8) + Zeros(Pad(|Unpack(bytes, 8)|))
  {
    var stream := Unpack(bytes, 8);
    PaddedToFive(|stream|);
    WholeGroups(stream + Zeros(Pad(|stream|)));
  }

  lemma DecodeSpecOfEncodeSpec(bytes: seq<byte>)
    ensures DecodeSpec(EncodeSpec(bytes)) == bytes
  {
    var stream := Unpack(bytes, 8);
    var padded := stream + Zeros(Pad(|stream|));
    EncodingSpells(bytes);
    assert Pow2(8) == 256;
    PackUnpack(bytes, 8, Zeros(Pad(|stream|)));
  }

  /** base32Decode(base32Encode(b)) == b, for every byte sequence. */
  lemma DecodeOfEncode(bytes: seq<byte>)
    ensures Decode(Text(EncodeSpec(bytes))) == Bytes(bytes)
  {
    var digits := EncodeSpec(bytes);
    DigitsOfText(digits);
    CleanedAlphabet(Text(digits));
    DecodeSpecOfEncodeSpec(bytes);
  }

  /** Output lengths: ceil(8n/5) digits, floor(5n/8) bytes. */
  lemma Lengths(bytes: seq<int>, digits: seq<int>)
    ensures |EncodeSpec(bytes)| == (8 * |bytes| + 4) / 5
    ensures |DecodeSpec(digits)| == 5 * |digits| / 8
  {
    EncodingSpells(bytes);
    UnpackLength(bytes, 8);
    UnpackLength(EncodeSpec(bytes), 5);
    var tail := UnpackPack(Unpack(digits, 5), 8);
    UnpackLength(digits, 5);
    UnpackLength(DecodeSpec(digits), 8);
  }

  // ---------- The other order ----------

  /** Bits of the last digit that no byte uses. */
  function Spare(n: nat): nat {
    5 * n % 8
  }

  /** A length some byte sequence encodes to, and unused trailing bits that are zero. */
  predicate Canonical(digits: seq<int>) {
    && |digits| % 8 != 1 && |digits| % 8 != 3 && |digits| % 8 != 6
    && (digits != [] ==> digits[|digits| - 1] % Pow2(Spare(|digits|)) == 0)
  }

  lemma SpareByResidue(n: nat)
    ensures Spare(n) < 5 <==> n % 8 != 1 && n % 8 != 3 && n % 8 != 6
    ensures n == 0 ==> Spare(n) == 0
  {
    var q, r := n / 8, n % 8;
    assert 5 * n == 8 * (5 * q) + 5 * r;
    ModUnique(5 * n, 8, 5 * q + 5 * r / 8, 5 * r % 8);
  }

  /** The padding that re-encoding adds has the dropped tail's length exactly when that is below five. */
  lemma PadOfWhole(n: nat, m: nat)
    requires 5 * n == 8 * m + Spare(n)
    ensures Pad(8 * m) == Spare(n) <==> Spare(n) < 5
    ensures 8 * m + Pad(8 * m) == 5 * n <==> Spare(n) < 5
  {
    var t := Spare(n);
    if t == 0 {
      ModUnique(8 * m, 5, n, 0);
    } else if t <= 5 {
      ModUnique(8 * m, 5, n - 1, 5 - t);
    } else {
      ModUnique(8 * m, 5, n - 2, 10 - t);
    }
  }

  lemma SameEnds(a: seq<bool>, b: seq<bool>, c: seq<bool>, d: seq<bool>)
    requires a + b == c + d && |b| == |d|
    ensures b == d
  {
    assert b == (a + b)[|a|..];
    assert d == (c + d)[|c|..];
  }

  lemma TailOfLast(before: seq<bool>, last: int, head: seq<bool>, tail: seq<bool>)
    requires before + NumBits(last, 5) == head + tail && |tail| <= 5
    ensures tail == NumBits(last, |tail|)
  {
    var t := |tail|;
    var top := NumBits(Shr(last, t), 5 - t);
    NumBitsSplit(last, 5 - t, t);
    assert before + (top + NumBits(last, t)) == (before + top) + NumBits(last, t);
    SameEnds(head, tail, before + top, NumBits(last, t));
  }

  lemma TailOfDigits(digits: seq<int>, head: seq<bool>, tail: seq<bool>)
    requires digits != [] && Unpack(digits, 5) == head + tail && |tail| <= 5
    ensures tail == Zeros(|tail|) <==> digits[|digits| - 1] % Pow2(|tail|) == 0
  {
    var last := digits[|digits| - 1];
    TailOfLast(Unpack(digits[..|digits| - 1], 5), last, head, tail);
    LowZerosIff(last, |tail|);
  }

  lemma SameDigitsIff(digits: seq<int>, bytes: seq<int>, head: seq<bool>, tail: seq<bool>)
    requires Below(digits, 5) && Unpack(digits, 5) == head + tail && head == Unpack(bytes, 8)
    ensures EncodeSpec(bytes) == digits <==> |tail| == Pad(|head|) && tail == Zeros(|tail|)
  {
    EncodingSpells(bytes);
    if EncodeSpec(bytes) == digits {
      assert head + tail == head + Zeros(Pad(|head|));
      assert tail == (head + tail)[|head|..] == (head + Zeros(Pad(|head|)))[|head|..] == Zeros(Pad(|head|));
    }
    if |tail| == Pad(|head|) && tail == Zeros(|tail|) {
      OnlyEncoding(digits, bytes);
    }
  }

  lemma ReencodeIff(digits: seq<int>)
    requires Below(digits, 5)
    ensures EncodeSpec(DecodeSpec(digits)) == digits <==> Canonical(digits)
  {
    var n := |digits|;
    var bits := Unpack(digits, 5);
    var bytes := DecodeSpec(digits);
    var head := Unpack(bytes, 8);
    var tail := UnpackPack(bits, 8);
    UnpackLength(digits, 5);
    UnpackLength(bytes, 8);
    ModUnique(5 * n, 8, |bytes|, |tail|);
    assert |tail| == Spare(n);
    SpareByResidue(n);
    PadOfWhole(n, |bytes|);
    EncodingSpells(bytes);
    SameDigitsIff(digits, bytes, head, tail);
    if n > 0 && |tail| < 5 {
      TailOfDigits(digits, head, tail);
    }
  }

  /** base32Encode(base32Decode(s)) == s exactly for the canonical strings over the upper-case alphabet. */
  lemma EncodeOfDecodeIff(s: string)
    ensures (Decode(s).Bytes? && Text(EncodeSpec(Decode(s).bytes)) == s) <==> (InAlphabet(s) && Canonical(Digits(s)))
  {
    if Decode(s).Bytes? {
      DigitsOfText(EncodeSpec(Decode(s).bytes));
    }
    if InAlphabet(s) {
      CleanedAlphabet(s);
      ReencodeIff(Digits(s));
      TextOfDigits(s);
      DigitsOfText(EncodeSpec(DecodeSpec(Digits(s))));
    }
  }

  // ---------- What is accepted, and how it is read ----------

  /** White space: tab, line feed, vertical tab, form feed, carriage return and space. */
  predicate Blank(c: char) {
    9 <= c as int <= 13 || c as int == 32
  }

  /** c is the alphabet's character d, or d is a letter and c its lower case. */
  predicate ReadsAs(c: char, d: char) {
    d in ALPHABET && (c == d || ('A' <= d <= 'Z' && c as int == d as int + 32))
  }

  /** The text is the characters of s in either case, with white space anywhere. */
  predicate Renders(text: string, s: string) {
    if text == [] then s == []
    else if Blank(text[0]) then Renders(text[1..], s)
    else s != [] && ReadsAs(text[0], s[0]) && Renders(text[1..], s[1..])
  }

  function UpperOf(c: char): char {
    if 'a' <= c <= 'z' then (c as int - 32) as char else c
  }

  lemma InAlphabetIff(c: char)
    ensures c in ALPHABET <==> IndexOf(c) >= 0
  {
    if IndexOf(c) >= 0 {
      LetterOfIndex(c);
    }
    if c in ALPHABET {
      var d :| 0 <= d < 32 && ALPHABET[d] == c;
      IndexOfLetter(d);
    }
  }

  lemma ReadsAsIff(c: char, d: char)
    ensures ReadsAs(c, d) <==> UpperOf(c) == d && IndexOf(d) >= 0
    ensures ReadsAs(c, d) ==> !Blank(c) && c != '='
  {
    InAlphabetIff(d);
  }

  lemma UpperParts(s: string)
    requires s != []
    ensures Upper(s)[0] == UpperOf(s[0]) && Upper(s)[1..] == Upper(s[1..])
    ensures IsSpace(Upper(s)[0]) <==> Blank(s[0])
  {
  }

  /** Reading in upper case and without white space gives back the characters. */
  lemma {:induction false} RenderedIff(text: string, s: string)
    ensures Renders(text, s) <==> RemoveSpace(Upper(text)) == s && InAlphabet(s)
    decreases text
  {
    if text != [] {
      UpperParts(text);
      var rest := RemoveSpace(Upper(text[1..]));
      if Blank(text[0]) {
        RenderedIff(text[1..], s);
        assert RemoveSpace(Upper(text)) == rest;
      } else {
        assert RemoveSpace(Upper(text)) == [UpperOf(text[0])] + rest;
        if s != [] {
          RenderedIff(text[1..], s[1..]);
          ReadsAsIff(text[0], s[0]);
          assert s == [s[0]] + s[1..];
          assert InAlphabet(s) <==> IndexOf(s[0]) >= 0 && InAlphabet(s[1..]) by {
            assert forall i | 1 <= i < |s| :: s[i] == s[1..][i - 1];
          }
          assert ([UpperOf(text[0])] + rest)[1..] == rest;
        }
      }
    }
  }

  lemma RendersRest(text: string, s: string)
    requires text != [] && Renders(text, s)
    ensures text[0] != '=' && (Blank(text[0]) || s != [])
    ensures Renders(text[1..], if Blank(text[0]) then s else s[1..])
  {
    if !Blank(text[0]) {
      ReadsAsIff(text[0], s[0]);
    }
  }

  lemma {:induction false} RendersNoPadding(text: string, s: string, i: nat)
    requires Renders(text, s) && i < |text|
    ensures text[i] != '='
    decreases i, text
  {
    RendersRest(text, s);
    if i > 0 {
      var rest := text[1..];
      RendersNoPadding(rest, if Blank(text[0]) then s else s[1..], i - 1);
    }
  }

  /** Only '=' signs. */
  predicate IsPadding(s: string) {
    forall i | 0 <= i < |s| :: s[i] == '='
  }

  lemma {:induction false} Stripped(body: string, padding: string)
    requires IsPadding(padding) && (body == [] || body[|body| - 1] != '=')
    ensures StripPadding(body + padding) == body
    decreases padding
  {
    var s := body + padding;
    if padding == [] {
      assert s == body;
    } else {
      assert s[..|s| - 1] == body + padding[..|padding| - 1];
      Stripped(body, padding[..|padding| - 1]);
    }
  }

  lemma {:induction false} SplitPadding(s: string) returns (body: string, padding: string)
    ensures s == body + padding && IsPadding(padding) && (body == [] || body[|body| - 1] != '=')
    decreases s
  {
    if s != [] && s[|s| - 1] == '=' {
      body, padding := SplitPadding(s[..|s| - 1]);
      padding := padding + ['='];
      assert s == s[..|s| - 1] + ['='];
    } else {
      body, padding := s, [];
    }
  }

  lemma CleanedParts(body: string, padding: string)
    requires IsPadding(padding) && (body == [] || body[|body| - 1] != '=')
    ensures Cleaned(body + padding) == RemoveSpace(Upper(body))
  {
    assert Upper(body + padding) == Upper(body) + padding;
    Stripped(Upper(body), padding);
  }

  lemma CleanedRendering(text: string, s: string, padding: string, u: string)
    requires Renders(text, s) && IsPadding(padding) && u == text + padding
    ensures Cleaned(u) == s && InAlphabet(s)
  {
    if text != [] {
      RendersNoPadding(text, s, |text| - 1);
    }
    CleanedParts(text, padding);
    RenderedIff(text, s);
  }

  /** A text in either case, with white space and closing padding, decodes as the characters it renders. */
  lemma DecodeOfRendering(text: string, s: string, padding: string)
    requires Renders(text, s) && IsPadding(padding)
    ensures Decode(text + padding) == Bytes(DecodeSpec(Digits(s)))
  {
    CleanedRendering(text, s, padding, text + padding);
  }

  /** Exactly those texts are accepted: white space after padding, for one, is not. */
  lemma DecodesIff(u: string)
    ensures Decode(u).Bytes? <==>
              exists text, s, padding :: u == text + padding && Renders(text, s) && IsPadding(padding)
  {
    var body, padding := SplitPadding(u);
    CleanedParts(body, padding);
    RenderedIff(body, Cleaned(u));
    if text, s, padding' :| u == text + padding' && Renders(text, s) && IsPadding(padding') {
      DecodeOfRendering(text, s, padding');
    }
  }

  /** So any rendering of an encoding gives back the bytes. */
  lemma DecodeOfRenderedEncoding(bytes: seq<byte>, text: string, padding: string)
    requires Renders(text, Text(EncodeSpec(bytes))) && IsPadding(padding)
    ensures Decode(text + padding) == Bytes(bytes)
  {
    var digits := EncodeSpec(bytes);
    DecodeOfRendering(text, Text(digits), padding);
    DigitsOfText(digits);
    DecodeSpecOfEncodeSpec(bytes);
  }
}
