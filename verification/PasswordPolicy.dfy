/** The two pattern detectors of the password policy: repeated characters and sequences. */
module PasswordPolicy {
  import opened Text

  const KEYBOARD_ROWS: seq<string> := ["qwertyuiop", "asdfghjkl", "zxcvbnm", "1234567890"]

  function Reverse(s: string): string {
    seq(|s|, i requires 0 <= i < |s| => s[|s| - 1 - i])
  }

  // ---------- Specifications ----------

  predicate ConstantFrom(s: string, i: nat, n: nat) {
    i + n <= |s| && forall k | i <= k < i + n :: s[k] == s[i]
  }

  predicate ConstantWindowAt(s: string, i: nat, max: nat) {
    ConstantFrom(s, i, max + 1)
  }

  /** Some window of max + 1 characters is constant. */
  predicate HasConstantWindow(s: string, max: nat) {
    exists i | 0 <= i < |s| :: ConstantWindowAt(s, i, max)
  }

  /** The n characters from i on go up (d = 1) or down (d = -1) one code at a time. */
  predicate StepsFrom(s: string, i: nat, n: nat, d: int) {
    i + n <= |s| && forall k | i < k < i + n :: s[k] as int - s[k - 1] as int == d
  }

  predicate CodeRunAt(s: string, i: nat, n: nat) {
    StepsFrom(s, i, n, 1) || StepsFrom(s, i, n, -1)
  }

  predicate HasCodeRun(s: string, n: nat) {
    exists i | 0 <= i <= |s| :: CodeRunAt(s, i, n)
  }

  predicate SliceAt(s: string, row: string, i: nat, n: nat) {
    i + n <= |row| && (Contains(s, row[i..i + n]) || Contains(s, Reverse(row[i..i + n])))
  }

  predicate HasSliceOf(s: string, row: string, n: nat) {
    exists i | 0 <= i <= |row| :: SliceAt(s, row, i, n)
  }

  predicate HasKeyboardRun(s: string, n: nat) {
    exists r | 0 <= r < |KEYBOARD_ROWS| :: HasSliceOf(s, KEYBOARD_ROWS[r], n)
  }

  // ---------- The detectors ----------

  /** A window that reaches back over a change is not constant. */
  lemma WindowTooWide(s: string, k: nat, bound: nat, change: nat)
    requires k < change <= k + bound < |s| && s[change - 1] != s[change]
    ensures !ConstantWindowAt(s, k, bound)
  {
    assert s[change - 1] != s[k] || s[change] != s[k];
  }

  /** A bound below 1 acts as 1: only a second equal character is ever counted. */
  method HasRepeatedRun(value: string, max: int) returns (found: bool)
    ensures found <==> HasConstantWindow(value, if max < 1 then 1 else max)
  {
    var bound := if max < 1 then 1 else max;
    var count := 1;
    var i := 1;
    while i < |value|
      invariant 1 <= i && (i <= |value| || |value| == 0)
      invariant 1 <= count <= bound && count <= i
      invariant i <= |value| ==> ConstantFrom(value, i - count, count)
      invariant i <= |value| && count < i ==> value[i - count - 1] != value[i - count]
      invariant forall k | 0 <= k && k + bound < i :: !ConstantWindowAt(value, k, bound)
    {
      if value[i] == value[i - 1] {
        count := count + 1;
        if count > max {
          assert ConstantFrom(value, i + 1 - count, count);
          assert ConstantWindowAt(value, i - bound, bound);
          return true;
        }
      } else {
        count := 1;
      }
      i := i + 1;
      forall k | 0 <= k && k + bound < i ensures !ConstantWindowAt(value, k, bound) {
        if k + bound == i - 1 {
          WindowTooWide(value, k, bound, i - count);
        }
      }
    }
    found := false;
  }

  /** The inner loop: whether the window goes up, and whether it goes down, at every step. */
  method Directions(lower: string, i: nat, minLen: nat) returns (asc: bool, desc: bool)
    requires i + minLen <= |lower|
    ensures asc <==> StepsFrom(lower, i, minLen, 1)
    ensures desc <==> StepsFrom(lower, i, minLen, -1)
  {
    asc, desc := true, true;
    var j := 1;
    while j < minLen
      invariant 1 <= j && (j <= minLen || minLen == 0)
      invariant minLen > 0 ==> (asc <==> StepsFrom(lower, i, j, 1)) && (desc <==> StepsFrom(lower, i, j, -1))
      invariant minLen == 0 ==> asc && desc
    {
      var diff := lower[i + j] as int - lower[i + j - 1] as int;
      if diff != 1 {
        asc := false;
      }
      if diff != -1 {
        desc := false;
      }
      j := j + 1;
    }
  }

  /** The loop over the slices of one keyboard row. */
  method FindsSlice(lower: string, row: string, minLen: nat) returns (found: bool)
    ensures found <==> HasSliceOf(lower, row, minLen)
  {
    var i := 0;
    while i <= |row| - minLen
      invariant 0 <= i
      invariant forall k | 0 <= k < i && k <= |row| - minLen :: !SliceAt(lower, row, k, minLen)
    {
      var slice := row[i..i + minLen];
      if Contains(lower, slice) || Contains(lower, Reverse(slice)) {
        assert SliceAt(lower, row, i, minLen);
        return true;
      }
      i := i + 1;
    }
    found := false;
  }

  method HasSequence(value: string, minLen: nat) returns (found: bool)
    ensures found <==> HasCodeRun(Lower(value), minLen) || HasKeyboardRun(Lower(value), minLen)
  {
    var lower := Lower(value);
    var i := 0;
    while i <= |lower| - minLen
      invariant 0 <= i
      invariant forall k | 0 <= k < i && k <= |lower| - minLen :: !CodeRunAt(lower, k, minLen)
    {
      var asc, desc := Directions(lower, i, minLen);
      if asc || desc {
        assert CodeRunAt(lower, i, minLen);
        return true;
      }
      i := i + 1;
    }
    assert !HasCodeRun(lower, minLen);
    for r := 0 to |KEYBOARD_ROWS|
      invariant forall k | 0 <= k < r :: !HasSliceOf(lower, KEYBOARD_ROWS[k], minLen)
    {
      var hit := FindsSlice(lower, KEYBOARD_ROWS[r], minLen);
      if hit {
        return true;
      }
    }
    found := false;
  }

  // ---------- Reversing ----------

  lemma ReverseTwice(s: string)
    ensures Reverse(Reverse(s)) == s
  {
  }

  lemma ReverseLower(s: string)
    ensures Lower(Reverse(s)) == Reverse(Lower(s))
  {
  }

  lemma ConstantReversed(s: string, max: nat)
    requires HasConstantWindow(s, max)
    ensures HasConstantWindow(Reverse(s), max)
  {
    var i :| 0 <= i < |s| && ConstantWindowAt(s, i, max);
    var r, i' := Reverse(s), |s| - 1 - max - i;
    forall k | i' <= k < i' + max + 1 ensures r[k] == r[i'] {
      assert r[k] == s[|s| - 1 - k] == s[i] == r[i'];
    }
    assert ConstantWindowAt(r, i', max);
  }

  /** Repetition is found in a password exactly when it is found in its mirror image. */
  lemma RepetitionIgnoresDirection(s: string, max: nat)
    ensures HasConstantWindow(Reverse(s), max) <==> HasConstantWindow(s, max)
  {
    ReverseTwice(s);
    if HasConstantWindow(s, max) {
      ConstantReversed(s, max);
    }
    if HasConstantWindow(Reverse(s), max) {
      ConstantReversed(Reverse(s), max);
    }
  }

  lemma CodeRunReversed(s: string, n: nat)
    requires HasCodeRun(s, n)
    ensures HasCodeRun(Reverse(s), n)
  {
    var i :| 0 <= i <= |s| && CodeRunAt(s, i, n);
    var d := if StepsFrom(s, i, n, 1) then 1 else -1;
    var r, i' := Reverse(s), |s| - n - i;
    forall k | i' < k < i' + n ensures r[k] as int - r[k - 1] as int == -d {
      assert r[k] == s[|s| - 1 - k] && r[k - 1] == s[|s| - k];
    }
    assert StepsFrom(r, i', n, -d);
    assert CodeRunAt(r, i', n);
  }

  lemma ContainsReversed(s: string, w: string)
    requires Contains(s, w)
    ensures Contains(Reverse(s), Reverse(w))
  {
    var i :| 0 <= i <= |s| && ContainsAt(s, w, i);
    var r, i' := Reverse(s), |s| - |w| - i;
    forall k | 0 <= k < |w| ensures r[i' + k] == Reverse(w)[k] {
      assert w[|w| - 1 - k] == s[i..i + |w|][|w| - 1 - k];
    }
    assert r[i'..i' + |w|] == Reverse(w);
    assert ContainsAt(r, Reverse(w), i');
  }

  lemma KeyboardRunReversed(s: string, n: nat)
    requires HasKeyboardRun(s, n)
    ensures HasKeyboardRun(Reverse(s), n)
  {
    var r :| 0 <= r < |KEYBOARD_ROWS| && HasSliceOf(s, KEYBOARD_ROWS[r], n);
    var row := KEYBOARD_ROWS[r];
    var i :| 0 <= i <= |row| && SliceAt(s, row, i, n);
    var slice := row[i..i + n];
    if Contains(s, slice) {
      ContainsReversed(s, slice);
    } else {
      ContainsReversed(s, Reverse(slice));
      ReverseTwice(slice);
    }
    assert SliceAt(Reverse(s), row, i, n);
  }

  /** Sequences are found in a password exactly when they are found in its mirror image. */
  lemma SequencesIgnoreDirection(s: string, n: nat)
    ensures HasCodeRun(Lower(Reverse(s)), n) <==> HasCodeRun(Lower(s), n)
    ensures HasKeyboardRun(Lower(Reverse(s)), n) <==> HasKeyboardRun(Lower(s), n)
  {
    var low := Lower(s);
    ReverseLower(s);
    ReverseTwice(low);
    if HasCodeRun(low, n) {
      CodeRunReversed(low, n);
    }
    if HasCodeRun(Reverse(low), n) {
      CodeRunReversed(Reverse(low), n);
    }
    if HasKeyboardRun(low, n) {
      KeyboardRunReversed(low, n);
    }
    if HasKeyboardRun(Reverse(low), n) {
      KeyboardRunReversed(Reverse(low), n);
    }
  }

  // ---------- Extending ----------

  lemma LowerOfConcat(a: string, b: string)
    ensures Lower(a + b) == Lower(a) + Lower(b)
  {
  }

  /** Writing characters around a repetition does not hide it. */
  lemma RepetitionSurvives(a: string, s: string, b: string, max: nat)
    requires HasConstantWindow(s, max)
    ensures HasConstantWindow(a + s + b, max)
  {
    var i :| 0 <= i < |s| && ConstantWindowAt(s, i, max);
    var t := a + s + b;
    forall k | |a| + i <= k < |a| + i + max + 1 ensures t[k] == t[|a| + i] {
      assert t[k] == s[k - |a|];
    }
    assert ConstantWindowAt(t, |a| + i, max);
  }

  lemma CodeRunSurvives(a: string, s: string, b: string, n: nat)
    requires HasCodeRun(s, n)
    ensures HasCodeRun(a + s + b, n)
  {
    var i :| 0 <= i <= |s| && CodeRunAt(s, i, n);
    var d := if StepsFrom(s, i, n, 1) then 1 else -1;
    var t := a + s + b;
    forall k | |a| + i < k < |a| + i + n ensures t[k] as int - t[k - 1] as int == d {
      assert t[k] == s[k - |a|] && t[k - 1] == s[k - 1 - |a|];
    }
    assert StepsFrom(t, |a| + i, n, d);
    assert CodeRunAt(t, |a| + i, n);
  }

  lemma ContainsSurvives(a: string, s: string, b: string, w: string)
    requires Contains(s, w)
    ensures Contains(a + s + b, w)
  {
    var i :| 0 <= i <= |s| && ContainsAt(s, w, i);
    assert (a + s + b)[|a| + i..|a| + i + |w|] == s[i..i + |w|];
    assert ContainsAt(a + s + b, w, |a| + i);
  }

  lemma KeyboardRunSurvives(a: string, s: string, b: string, n: nat)
    requires HasKeyboardRun(s, n)
    ensures HasKeyboardRun(a + s + b, n)
  {
    var r :| 0 <= r < |KEYBOARD_ROWS| && HasSliceOf(s, KEYBOARD_ROWS[r], n);
    var row := KEYBOARD_ROWS[r];
    var i :| 0 <= i <= |row| && SliceAt(s, row, i, n);
    if Contains(s, row[i..i + n]) {
      ContainsSurvives(a, s, b, row[i..i + n]);
    } else {
      ContainsSurvives(a, s, b, Reverse(row[i..i + n]));
    }
    assert SliceAt(a + s + b, row, i, n);
  }

  /** Writing characters around a sequence does not hide it. */
  lemma SequenceSurvives(a: string, s: string, b: string, n: nat)
    requires HasCodeRun(Lower(s), n) || HasKeyboardRun(Lower(s), n)
    ensures HasCodeRun(Lower(a + s + b), n) || HasKeyboardRun(Lower(a + s + b), n)
  {
    LowerOfConcat(a + s, b);
    LowerOfConcat(a, s);
    if HasCodeRun(Lower(s), n) {
      CodeRunSurvives(Lower(a), Lower(s), Lower(b), n);
    } else {
      KeyboardRunSurvives(Lower(a), Lower(s), Lower(b), n);
    }
  }
}
