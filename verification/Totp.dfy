/** Time-based one-time passwords: section 5.3 of RFC 4226, sections 4.2 and 5.2 of RFC 6238. */
module Totp {
  import opened BitStrings
  import opened Int32Words
  import opened Numerals
  import opened Base32

  const STEP_SECONDS := 30
  const DIGITS := 6
  const WINDOW := 1
  const COUNTER_BYTES: nat := 8
  const WORD_BYTES: nat := 4

  /** HMAC-SHA-1 of a message under a key. */
  type Hmac = (seq<int>, seq<int>) -> seq<int>

  ghost predicate IsHmacSha1(hmac: Hmac) {
    forall key, message :: |hmac(key, message)| == 20
      && forall i | 0 <= i < 20 :: 0 <= hmac(key, message)[i] < 256
  }

  /** What `writeBigUInt64BE` accepts. */
  predicate CounterInRange(counter: int) {
    0 <= counter < 0x1_0000_0000_0000_0000
  }

  function BigEndian(n: nat, width: nat): (bytes: seq<int>)
    ensures |bytes| == width
    decreases width, n
  {
    if width == 0 then [] else BigEndian(n / 256, width - 1) + [n % 256]
  }

  function Power256(k: nat): (p: nat)
    ensures p > 0
    decreases k, 0
  {
    if k == 0 then 1 else 256 * Power256(k - 1)
  }

  /** The most significant byte comes first. */
  lemma {:induction false} BigEndianAt(n: nat, width: nat, i: nat)
    requires i < width
    ensures BigEndian(n, width)[i] == n / Power256(width - 1 - i) % 256
    decreases width
  {
    if i < width - 1 {
      BigEndianAt(n / 256, width - 1, i);
      DivideTwice(n, 256, Power256(width - 2 - i));
    }
  }

  lemma Powers256()
    ensures Power256(0) == 1 && Power256(1) == 0x100 && Power256(2) == 0x1_0000 && Power256(3) == 0x100_0000
    ensures Power256(4) == 0x1_0000_0000 && Power256(5) == 0x100_0000_0000
    ensures Power256(6) == 0x1_0000_0000_0000 && Power256(7) == 0x100_0000_0000_0000
  {
    assert Power256(3) == 256 * Power256(2) && Power256(2) == 256 * Power256(1) && Power256(1) == 256 * Power256(0);
    assert Power256(5) == 256 * Power256(4) && Power256(4) == 256 * Power256(3);
    assert Power256(7) == 256 * Power256(6) && Power256(6) == 256 * Power256(5);
  }

  /** `readUInt32BE` when `count` is 4. */
  function ReadBigEndian(bytes: seq<int>, offset: nat, count: nat): (n: int)
    requires offset + count <= |bytes|
    decreases count, offset
  {
    if count == 0 then 0 else ReadBigEndian(bytes, offset, count - 1) * 256 + bytes[offset + count - 1]
  }

  /** The 31-bit number read at the offset in the digest's last four bits. */
  function DynamicTruncation(digest: seq<int>): nat
    requires |digest| == 20
  {
    ReadBigEndian(digest, digest[19] % 16, WORD_BYTES) % 0x8000_0000
  }

  function PadStart(s: string, width: nat): (padded: string)
    ensures |padded| == if |s| < width then width else |s|
    decreases width - |s|
  {
    if |s| < width then PadStart("0" + s, width) else s
  }

  function CodeText(n: nat): string {
    PadStart(Decimal(n), DIGITS)
  }

  /** The eight bytes of a counter. */
  lemma CounterBytes(n: nat, bytes: seq<int>)
    requires bytes == BigEndian(n, COUNTER_BYTES)
    ensures |bytes| == 8
    ensures bytes[0] == n / 0x100_0000_0000_0000 % 256 && bytes[1] == n / 0x1_0000_0000_0000 % 256
    ensures bytes[2] == n / 0x100_0000_0000 % 256 && bytes[3] == n / 0x1_0000_0000 % 256
    ensures bytes[4] == n / 0x100_0000 % 256 && bytes[5] == n / 0x1_0000 % 256
    ensures bytes[6] == n / 0x100 % 256 && bytes[7] == n % 256
  {
    Powers256();
    forall i: nat | i < 8 ensures bytes[i] == n / Power256(7 - i) % 256 {
      BigEndianAt(n, 8, i);
    }
  }

  ghost function HotpNumber(hmac: Hmac, key: seq<int>, counter: nat): nat
    requires IsHmacSha1(hmac)
  {
    DynamicTruncation(hmac(key, BigEndian(counter, COUNTER_BYTES))) % 1000000
  }

  /** The code of one counter. */
  ghost function Hotp(hmac: Hmac, key: seq<int>, counter: nat): string
    requires IsHmacSha1(hmac)
  {
    CodeText(HotpNumber(hmac, key, counter))
  }

  predicate SixDigits(token: string) {
    |token| == DIGITS && AllDigits(token)
  }

  function DigitValue(c: char): nat {
    if IsDigit(c) then c as int - '0' as int else 0
  }

  function Value(s: string): nat {
    if s == [] then 0 else 10 * Value(s[..|s| - 1]) + DigitValue(s[|s| - 1])
  }

  lemma {:induction false} ValueOfZero(s: string)
    ensures Value("0" + s) == Value(s)
  {
    if s == [] {
      assert ("0" + s)[..0] == [];
    } else {
      ValueOfZero(s[..|s| - 1]);
      assert ("0" + s)[..|s|] == "0" + s[..|s| - 1];
    }
  }

  lemma {:induction false} PaddedKeepsValue(s: string, width: nat)
    ensures Value(PadStart(s, width)) == Value(s)
    ensures AllDigits(s) ==> AllDigits(PadStart(s, width))
    decreases width - |s|
  {
    if |s| < width {
      ValueOfZero(s);
      PaddedKeepsValue("0" + s, width);
    }
  }

  lemma {:induction false} PaddedAt(s: string, width: nat, i: nat)
    requires |s| <= width && i < width
    ensures PadStart(s, width)[i] == if i < width - |s| then '0' else s[i - (width - |s|)]
    decreases width - |s|
  {
    if |s| < width {
      PaddedAt("0" + s, width, i);
    }
  }

  /** The digits of a code by position, leading zeros included. */
  lemma CodeDigit(n: nat, k: nat)
    requires n < 1000000 && k < DIGITS
    ensures |CodeText(n)| == DIGITS && CodeText(n)[k] == Digit(n / Power10(DIGITS - 1 - k) % 10)
  {
    assert Power10(6) == 1000000;
    DecimalWidth(n, 6);
    PaddedAt(Decimal(n), DIGITS, k);
    DecimalAt(n, DIGITS - 1 - k);
  }

  lemma CodeIsSixDigits(n: nat)
    requires n < 1000000
    ensures SixDigits(CodeText(n))
  {
    DecimalIsDigits(n);
    assert Power10(6) == 1000000;
    DecimalWidth(n, 6);
    PaddedKeepsValue(Decimal(n), DIGITS);
  }

  lemma ValueSnoc(s: string, d: nat)
    requires d < 10
    ensures Value(s + [Digit(d)]) == 10 * Value(s) + d
  {
    assert (s + [Digit(d)])[..|s|] == s;
    assert IsDigit(Digit(d)) && DigitValue(Digit(d)) == d;
  }

  lemma {:induction false} ValueOfDecimal(n: nat)
    ensures Value(Decimal(n)) == n
  {
    if n < 10 {
      ValueSnoc([], n);
      assert [] + [Digit(n)] == Decimal(n);
    } else {
      ValueOfDecimal(n / 10);
      ValueSnoc(Decimal(n / 10), n % 10);
    }
  }

  /** The text identifies the number: no two numbers have the same code. */
  lemma CodeTextInjective(m: nat, n: nat)
    requires CodeText(m) == CodeText(n)
    ensures m == n
  {
    ValueOfDecimal(m);
    ValueOfDecimal(n);
    PaddedKeepsValue(Decimal(m), DIGITS);
    PaddedKeepsValue(Decimal(n), DIGITS);
  }

  /** The four bytes from the offset on, the first without its sign bit, as one number. */
  lemma TruncatedNumber(digest: seq<int>, o: nat)
    requires |digest| == 20 && (forall i | 0 <= i < 20 :: 0 <= digest[i] < 256) && o == digest[19] % 16
    ensures DynamicTruncation(digest) ==
              (digest[o] % 128) * 0x100_0000 + digest[o + 1] * 0x1_0000 + digest[o + 2] * 0x100 + digest[o + 3]
  {
    assert ReadBigEndian(digest, o, 1) == ReadBigEndian(digest, o, 0) * 256 + digest[o] == digest[o];
    assert ReadBigEndian(digest, o, 2) == digest[o] * 0x100 + digest[o + 1];
    assert ReadBigEndian(digest, o, 3) == digest[o] * 0x1_0000 + digest[o + 1] * 0x100 + digest[o + 2];
    var low := digest[o + 1] * 0x1_0000 + digest[o + 2] * 0x100 + digest[o + 3];
    assert ReadBigEndian(digest, o, 4) == digest[o] * 0x100_0000 + low;
    assert digest[o] == 128 * (digest[o] / 128) + digest[o] % 128;
  }

  /** The last six decimal digits. */
  function SixOf(n: nat): string {
    [Digit(n / 100000 % 10), Digit(n / 10000 % 10), Digit(n / 1000 % 10),
     Digit(n / 100 % 10), Digit(n / 10 % 10), Digit(n % 10)]
  }

  /** Section 5.3 of RFC 4226 on the twenty bytes of a digest: the four bytes from the offset on, without the
      sign bit, are a number, and its last six decimal digits are the code. */
  function Spelled(d: seq<int>): string
    requires |d| == 20 && forall i | 0 <= i < 20 :: 0 <= d[i] < 256
  {
    var o := d[19] % 16;
    SixOf(((d[o] % 128) * 0x100_0000 + d[o + 1] * 0x1_0000 + d[o + 2] * 0x100 + d[o + 3]) % 1000000)
  }

  /** The eight bytes of a counter, most significant first. */
  function CounterMessage(n: nat): seq<int> {
    [n / 0x100_0000_0000_0000 % 256, n / 0x1_0000_0000_0000 % 256, n / 0x100_0000_0000 % 256,
     n / 0x1_0000_0000 % 256, n / 0x100_0000 % 256, n / 0x1_0000 % 256, n / 0x100 % 256, n % 256]
  }

  lemma Powers10()
    ensures Power10(0) == 1 && Power10(1) == 10 && Power10(2) == 100 && Power10(3) == 1000
    ensures Power10(4) == 10000 && Power10(5) == 100000
  {
  }

  lemma SixOfDigits(n: nat, code: string)
    requires |code| == 6 && forall k: nat | k < 6 :: code[k] == Digit(n / Power10(5 - k) % 10)
    ensures code == SixOf(n)
  {
    Powers10();
    assert code == [code[0], code[1], code[2], code[3], code[4], code[5]];
  }

  lemma CodeTextIs(n: nat)
    requires n < 1000000
    ensures CodeText(n) == SixOf(n)
  {
    var code := CodeText(n);
    CodeDigit(n, 0);
    forall k: nat | k < 6 ensures code[k] == Digit(n / Power10(5 - k) % 10) {
      CodeDigit(n, k);
    }
    SixOfDigits(n, code);
  }

  lemma DigestSpells(d: seq<int>)
    requires |d| == 20 && forall i | 0 <= i < 20 :: 0 <= d[i] < 256
    ensures CodeText(DynamicTruncation(d) % 1000000) == Spelled(d)
  {
    TruncatedNumber(d, d[19] % 16);
    var n := DynamicTruncation(d) % 1000000;
    CodeTextIs(n);
  }

  lemma MessageBytes(n: nat)
    ensures BigEndian(n, COUNTER_BYTES) == CounterMessage(n)
  {
    CounterBytes(n, BigEndian(n, COUNTER_BYTES));
  }

  /** The computed code, byte by byte and digit by digit. */
  lemma HotpSpelledOut(hmac: Hmac, key: seq<int>, n: nat)
    requires IsHmacSha1(hmac)
    ensures Hotp(hmac, key, n) == Spelled(hmac(key, CounterMessage(n)))
  {
    MessageBytes(n);
    DigestSpells(hmac(key, BigEndian(n, COUNTER_BYTES)));
  }

  // ---------- The operations ----------

  datatype Generated = Token(code: string) | InvalidSecret | CounterRange

  ghost function CodeFor(hmac: Hmac, secret: Decoded, counter: int): Generated
    requires IsHmacSha1(hmac)
  {
    match secret
    case InvalidCharacter => InvalidSecret
    case Bytes(key) => if CounterInRange(counter) then Token(Hotp(hmac, key, counter)) else CounterRange
  }

  lemma LowNibble(b: int)
    ensures And(b, 0x0f) == b % 16
  {
    assert Pow2(4) == 16;
    AndIsMod(b, 4, 0x0f);
  }

  lemma SignCleared(word: int)
    ensures And(word, 0x7fff_ffff) == word % 0x8000_0000
  {
    WordWidth();
    AndIsMod(word, 31, 0x7fff_ffff);
  }

  /** The read stays inside the digest, and every code has six digits. */
  method GenerateCode(hmac: Hmac, secret: string, counter: int) returns (r: Generated)
    requires IsHmacSha1(hmac)
    ensures r == CodeFor(hmac, Decode(secret), counter)
    ensures r.InvalidSecret? <==> Decode(secret).InvalidCharacter?
    ensures r.CounterRange? <==> Decode(secret).Bytes? && !(0 <= counter < 0x1_0000_0000_0000_0000)
    ensures r.Token? ==> r.code == Spelled(hmac(Decode(secret).bytes, CounterMessage(counter))) && SixDigits(r.code)
  {
    var key := Base32Decode(secret);
    if key.InvalidCharacter? {
      return InvalidSecret;
    }
    if !CounterInRange(counter) {
      return CounterRange;
    }
    var digest := hmac(key.bytes, BigEndian(counter, COUNTER_BYTES));
    var offset := And(digest[|digest| - 1], 0x0f);
    LowNibble(digest[|digest| - 1]);
    var word := ReadBigEndian(digest, offset, WORD_BYTES);
    SignCleared(word);
    var number := And(word, 0x7fff_ffff) % 1000000;
    CodeIsSixDigits(number);
    r := Token(PadStart(Decimal(number), DIGITS));
    HotpSpelledOut(hmac, key.bytes, counter);
  }

  function Counter(timeMs: int): int {
    timeMs / (1000 * STEP_SECONDS)
  }

  method GenerateToken(hmac: Hmac, secret: string, timeMs: int) returns (r: Generated)
    requires IsHmacSha1(hmac)
    ensures r == CodeFor(hmac, Decode(secret), Counter(timeMs))
    ensures r.Token? ==> SixDigits(r.code)
                         && r.code == Spelled(hmac(Decode(secret).bytes, CounterMessage(timeMs / 30000)))
  {
    r := GenerateCode(hmac, secret, Counter(timeMs));
  }

  method TimingSafeEqual(a: string, b: string) returns (same: bool)
    requires |a| == |b|
    ensures same <==> a == b
  {
    same := a == b;
  }

  /** One candidate of the window, and whether the token is it. */
  method Candidate(hmac: Hmac, secret: string, counter: int, token: string)
    returns (candidate: Generated, same: bool)
    requires IsHmacSha1(hmac) && |token| == DIGITS
    ensures candidate == CodeFor(hmac, Decode(secret), counter)
    ensures same <==> candidate.Token? && token == candidate.code
  {
    candidate := GenerateCode(hmac, secret, counter);
    same := false;
    if candidate.Token? {
      same := TimingSafeEqual(candidate.code, token);
    }
  }

  datatype Verified = Answer(accepted: bool) | Throws(why: Generated)

  /** The first counter of the window without a code decides; with three codes, the token must be one of them. */
  function Judge(before: Generated, now: Generated, after: Generated, token: string): Verified {
    if !before.Token? then Throws(before)
    else if !now.Token? then Throws(now)
    else if !after.Token? then Throws(after)
    else Answer(token == before.code || token == now.code || token == after.code)
  }

  method MatchWindow(hmac: Hmac, secret: string, token: string, counter: int, ghost decoded: Decoded)
    returns (r: Verified)
    requires IsHmacSha1(hmac) && |token| == DIGITS && decoded == Decode(secret)
    ensures r == Judge(CodeFor(hmac, decoded, counter - 1), CodeFor(hmac, decoded, counter),
                       CodeFor(hmac, decoded, counter + 1), token)
  {
    var matched := false;
    ghost var before, now := CodeFor(hmac, decoded, counter - 1), CodeFor(hmac, decoded, counter);
    ghost var after := CodeFor(hmac, decoded, counter + 1);
    for i := -WINDOW to WINDOW + 1
      invariant (i > -1 ==> before.Token?) && (i > 0 ==> now.Token?) && (i > 1 ==> after.Token?)
      invariant matched <==>
                  (i > -1 && token == before.code) || (i > 0 && token == now.code) || (i > 1 && token == after.code)
    {
      var tried := counter + i;
      var candidate, same := Candidate(hmac, secret, tried, token);
      if i == -1 {
        assert tried == counter - 1;
      } else if i == 0 {
        assert tried == counter;
      } else {
        assert tried == counter + 1;
      }
      if !candidate.Token? {
        return Throws(candidate);
      }
      if same {
        matched := true;
      }
    }
    r := Answer(matched);
  }

  /** Exactly a bad secret, or a counter without a neighbour on both sides (the first 30 seconds after the epoch,
      or the very end of the counter range), makes verification throw; else the answer is yes exactly for the
      codes of counters c - 1, c and c + 1. */
  ghost predicate Judged(hmac: Hmac, secret: Decoded, token: string, c: int, r: Verified)
    requires IsHmacSha1(hmac)
  {
    && (r.Throws? <==> secret.InvalidCharacter? || !(1 <= c < 0xffff_ffff_ffff_ffff))
    && (r.Answer? ==> (r.accepted <==> token == Hotp(hmac, secret.bytes, c - 1)
                                       || token == Hotp(hmac, secret.bytes, c)
                                       || token == Hotp(hmac, secret.bytes, c + 1)))
  }

  lemma JudgeMeans(hmac: Hmac, secret: Decoded, token: string, c: int)
    requires IsHmacSha1(hmac)
    ensures var r := Judge(CodeFor(hmac, secret, c - 1), CodeFor(hmac, secret, c), CodeFor(hmac, secret, c + 1), token);
            Judged(hmac, secret, token, c, r)
  {
  }

  method VerifyToken(hmac: Hmac, secret: string, token: string, timeMs: int) returns (r: Verified)
    requires IsHmacSha1(hmac)
    ensures !SixDigits(token) ==> r == Answer(false)
    ensures SixDigits(token) ==>
              var c := Counter(timeMs);
              r == Judge(CodeFor(hmac, Decode(secret), c - 1), CodeFor(hmac, Decode(secret), c),
                         CodeFor(hmac, Decode(secret), c + 1), token)
    ensures SixDigits(token) ==> Judged(hmac, Decode(secret), token, timeMs / 30000, r)
  {
    if !SixDigits(token) {
      return Answer(false);
    }
    var c := Counter(timeMs);
    r := MatchWindow(hmac, secret, token, c, Decode(secret));
    JudgeMeans(hmac, Decode(secret), token, c);
  }

  lemma CodeExists(hmac: Hmac, secret: Decoded, counter: int)
    requires IsHmacSha1(hmac)
    ensures CodeFor(hmac, secret, counter).Token? <==> secret.Bytes? && CounterInRange(counter)
  {
  }

  lemma JudgeAccepts(before: Generated, now: Generated, after: Generated, code: Generated)
    requires before.Token? && now.Token? && after.Token? && code.Token?
    requires code == before || code == now || code == after
    ensures Judge(before, now, after, code.code) == Answer(true)
  {
  }

  lemma WindowAccepts(hmac: Hmac, secret: Decoded, c: int, k: int)
    requires IsHmacSha1(hmac) && secret.Bytes?
    requires c - 1 <= k <= c + 1 && CounterInRange(c - 1) && CounterInRange(c + 1)
    ensures CodeFor(hmac, secret, k).Token?
    ensures Judge(CodeFor(hmac, secret, c - 1), CodeFor(hmac, secret, c), CodeFor(hmac, secret, c + 1),
                  CodeFor(hmac, secret, k).code) == Answer(true)
  {
    CodeExists(hmac, secret, c - 1);
    CodeExists(hmac, secret, c);
    CodeExists(hmac, secret, c + 1);
    var before, now, after := CodeFor(hmac, secret, c - 1), CodeFor(hmac, secret, c), CodeFor(hmac, secret, c + 1);
    if k == c - 1 {
      JudgeAccepts(before, now, after, before);
    } else if k == c {
      JudgeAccepts(before, now, after, now);
    } else {
      JudgeAccepts(before, now, after, after);
    }
  }

  lemma CounterStarts(t: int)
    ensures Counter(t) >= 1 <==> t >= 30000
  {
  }

  lemma NeighbouringCounters(t: int, t': int)
    requires -30000 <= t' - t <= 30000
    ensures Counter(t') - 1 <= Counter(t) <= Counter(t') + 1
  {
  }

  /** A code generated at one moment is accepted at every moment at most 30 s away, from 30 s after the epoch on. */
  lemma DriftIsTolerated(hmac: Hmac, secret: Decoded, t: int, t': int)
    requires IsHmacSha1(hmac) && secret.Bytes?
    requires -30000 <= t' - t <= 30000 && t' >= 30000 && CounterInRange(Counter(t') + 1)
    ensures var c := Counter(t');
            var code := CodeFor(hmac, secret, Counter(t));
            code.Token? &&
            Judge(CodeFor(hmac, secret, c - 1), CodeFor(hmac, secret, c), CodeFor(hmac, secret, c + 1), code.code) ==
              Answer(true)
  {
    NeighbouringCounters(t, t');
    CounterStarts(t');
    WindowAccepts(hmac, secret, Counter(t'), Counter(t));
  }

  /** The tolerance is exactly that: one step further away some moment falls outside the window. */
  lemma DriftBound(d: int)
    ensures (forall t :: Counter(t + d) - 1 <= Counter(t) <= Counter(t + d) + 1) <==> -30000 <= d <= 30000
  {
    if -30000 <= d <= 30000 {
      forall t ensures Counter(t + d) - 1 <= Counter(t) <= Counter(t + d) + 1 {
        NeighbouringCounters(t, t + d);
      }
    } else if d > 30000 {
      assert Counter(29999) == 0 && Counter(29999 + d) >= 2;
    } else {
      assert Counter(30000) == 1 && Counter(30000 + d) <= -1;
    }
  }
}
