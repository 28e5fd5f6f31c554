/** String operations of the JVM and Kotlin libraries the adapter relies on:
    `indexOf`, `contains`, Kotlin's `String.replace`, `split` and
    `joinToString`, the character classes of `java.util.regex`, and decimal
    numerals. */
module Text {

  // ---------------------------------------------------------------------
  // Character classes
  // ---------------------------------------------------------------------

  /** `\s` of java.util.regex without flags: [ \t\n\x0B\f\r]. */
  predicate IsSpace(c: char)
  {
    c == ' ' || c == '\t' || c == '\n' || c == '\U{0B}' || c == '\U{0C}' || c == '\r'
  }

  /** `[0-9]`. */
  predicate IsDigit(c: char)
  {
    '0' <= c <= '9'
  }

  /** The characters that `.` does not match in java.util.regex without flags. */
  predicate IsLineTerminator(c: char)
  {
    c == '\n' || c == '\r' || c == '\U{85}' || c == '\U{2028}' || c == '\U{2029}'
  }

  // ---------------------------------------------------------------------
  // Searching
  // ---------------------------------------------------------------------

  /** `pat` occurs in `s` starting at index `i`. */
  predicate OccursAt(s: string, pat: string, i: int)
  {
    0 <= i && i + |pat| <= |s| && s[i..i + |pat|] == pat
  }

  /** One mismatching character rules an occurrence out. */
  lemma MismatchAt(s: string, pat: string, i: nat, d: nat)
    requires d < |pat| && i + d < |s| && s[i + d] != pat[d]
    ensures !OccursAt(s, pat, i)
  {
    if i + |pat| <= |s| {
      assert s[i..i + |pat|][d] == s[i + d];
    }
  }

  /** `pat` occurs somewhere in `s`. */
  ghost predicate Occurs(s: string, pat: string)
  {
    exists i :: OccursAt(s, pat, i)
  }

  /** Java's `s.indexOf(pat, from)`: the first occurrence at or after `from`, or -1. */
  function IndexOf(s: string, pat: string, from: nat): (r: int)
    requires from <= |s|
    ensures r == -1 || (from <= r && OccursAt(s, pat, r))
    ensures forall k :: from <= k && (r == -1 || k < r) ==> !OccursAt(s, pat, k)
    decreases |s| - from
  {
    if from + |pat| > |s| then -1
    else if s[from..from + |pat|] == pat then from
    else IndexOf(s, pat, from + 1)
  }

  /** Java's `s.contains(pat)`. */
  function Contains(s: string, pat: string): (r: bool)
    ensures r <==> Occurs(s, pat)
  {
    IndexOf(s, pat, 0) >= 0
  }

  // ---------------------------------------------------------------------
  // Kotlin's String.replace(oldValue, newValue, ignoreCase = false)
  // ---------------------------------------------------------------------

  /** `s.replace(target, replacement)`: one left-to-right pass that replaces
      non-overlapping occurrences of `target`; an empty target matches
      before every character and at the end. */
  function Replace(s: string, target: string, replacement: string): (r: string)
    ensures 0 < |target| && |replacement| <= |target| ==> |r| <= |s|
  {
    ReplaceNoLonger(s, target, replacement, 0);
    ReplaceFrom(s, target, replacement, 0)
  }

  /** The pass of `Replace` from index `i` on. */
  function ReplaceFrom(s: string, target: string, replacement: string, i: nat): string
    requires i <= |s|
    decreases |s| - i
  {
    if |target| == 0 then
      if i == |s| then replacement
      else replacement + [s[i]] + ReplaceFrom(s, target, replacement, i + 1)
    else if i == |s| then ""
    else if OccursAt(s, target, i) then replacement + ReplaceFrom(s, target, replacement, i + |target|)
    else [s[i]] + ReplaceFrom(s, target, replacement, i + 1)
  }

  /** A replacement no longer than its non-empty target never lengthens
      the text. */
  lemma {:induction false} ReplaceNoLonger(s: string, target: string, replacement: string, i: nat)
    requires i <= |s|
    ensures 0 < |target| && |replacement| <= |target| ==>
              |ReplaceFrom(s, target, replacement, i)| <= |s| - i
    decreases |s| - i
  {
    if 0 < |target| && i < |s| {
      if OccursAt(s, target, i) {
        ReplaceNoLonger(s, target, replacement, i + |target|);
      } else {
        ReplaceNoLonger(s, target, replacement, i + 1);
      }
    }
  }

  /** With no occurrence of a non-empty target from `i` on, the pass copies
      the rest of the input. */
  lemma {:induction false} ReplaceAbsent(s: string, target: string, replacement: string, i: nat)
    requires |target| > 0 && i <= |s|
    requires forall j :: i <= j ==> !OccursAt(s, target, j)
    ensures ReplaceFrom(s, target, replacement, i) == s[i..]
    decreases |s| - i
  {
    if i < |s| {
      ReplaceAbsent(s, target, replacement, i + 1);
      assert [s[i]] + s[i + 1..] == s[i..];
    }
  }

  /** Where the target does not occur, the pass copies one character. */
  lemma ReplaceCopies(s: string, target: string, replacement: string, i: nat)
    requires |target| > 0 && i < |s| && !OccursAt(s, target, i)
    ensures ReplaceFrom(s, target, replacement, i) == [s[i]] + ReplaceFrom(s, target, replacement, i + 1)
  {
  }

  /** Prepending the character at `i` to the text from `i + 1` to `k`. */
  lemma PrependSlice(s: string, i: nat, k: nat, u: string, v: string)
    requires i < k <= |s|
    ensures [s[i]] + (s[i + 1..k] + u + v) == s[i..k] + u + v
  {
    assert [s[i]] + s[i + 1..k] == s[i..k];
  }

  /** The first occurrence `k` at or after `i` of a non-empty target is
      replaced, what lies before it is copied unchanged, and the pass resumes
      right after it. */
  lemma {:induction false} ReplaceFirst(s: string, target: string, replacement: string, i: nat, k: nat)
    requires |target| > 0 && i <= k
    requires OccursAt(s, target, k)
    requires forall j :: i <= j < k ==> !OccursAt(s, target, j)
    ensures ReplaceFrom(s, target, replacement, i)
         == s[i..k] + replacement + ReplaceFrom(s, target, replacement, k + |target|)
    decreases k - i
  {
    if i == k {
      assert s[i..k] == "";
    } else {
      ReplaceCopies(s, target, replacement, i);
      ReplaceFirst(s, target, replacement, i + 1, k);
      PrependSlice(s, i, k, replacement, ReplaceFrom(s, target, replacement, k + |target|));
    }
  }

  /** `replace` agrees with the `indexOf` loop that Kotlin's
      `String.replace` runs for a non-empty target: find the
      next occurrence, copy what precedes it, emit the replacement, go on
      after the occurrence. */
  lemma ReplaceByIndexOf(s: string, target: string, replacement: string, i: nat)
    requires |target| > 0 && i <= |s|
    ensures var k := IndexOf(s, target, i);
            ReplaceFrom(s, target, replacement, i)
            == if k < 0 then s[i..]
               else s[i..k] + replacement + ReplaceFrom(s, target, replacement, k + |target|)
  {
    var k := IndexOf(s, target, i);
    if k < 0 {
      ReplaceAbsent(s, target, replacement, i);
    } else {
      ReplaceFirst(s, target, replacement, i, k);
    }
  }

  // ---------------------------------------------------------------------
  // Kotlin's split(Char) and joinToString(String)
  // ---------------------------------------------------------------------

  /** `s.split(c)`: the pieces between occurrences of `c`, empty pieces kept
      (an empty string splits into one empty piece). */
  function Split(s: string, c: char): (parts: seq<string>)
    ensures |parts| >= 1
    decreases |s|
  {
    if |s| == 0 then [""]
    else
      var rest := Split(s[1..], c);
      if s[0] == c then [""] + rest else [[s[0]] + rest[0]] + rest[1..]
  }

  /** `parts.joinToString(sep)`. */
  function Join(parts: seq<string>, sep: string): string
    decreases |parts|
  {
    if |parts| == 0 then ""
    else if |parts| == 1 then parts[0]
    else parts[0] + sep + Join(parts[1..], sep)
  }

  /** A string without the separator is one piece. */
  lemma {:induction false} SplitWithout(s: string, c: char)
    requires c !in s
    ensures Split(s, c) == [s]
    decreases |s|
  {
    if |s| > 0 {
      assert c !in s[1..] by { assert forall x :: x in s[1..] ==> x in s; }
      SplitWithout(s[1..], c);
      assert [s[0]] + s[1..] == s;
    }
  }

  /** Splitting a text with one more character in front. */
  lemma SplitCons(x: char, t: string, c: char)
    ensures var rest := Split(t, c);
            Split([x] + t, c) == if x == c then [""] + rest else [[x] + rest[0]] + rest[1..]
  {
    assert ([x] + t)[1..] == t;
  }

  /** Splitting around one separator concatenates the pieces of both sides. */
  lemma {:induction false} SplitAround(a: string, c: char, b: string)
    ensures Split(a + [c] + b, c) == Split(a, c) + Split(b, c)
    decreases |a|
  {
    if |a| == 0 {
      assert a + [c] + b == [c] + b;
      SplitCons(c, b, c);
      assert Split(a, c) == [""];
    } else {
      SplitAround(a[1..], c, b);
      SplitAroundStep(a[0], a[1..], c, b);
      assert a == [a[0]] + a[1..];
      assert a + [c] + b == [a[0]] + (a[1..] + [c] + b);
    }
  }

  /** The inductive step of `SplitAround`: one more character in front. */
  lemma SplitAroundStep(x: char, a: string, c: char, b: string)
    requires Split(a + [c] + b, c) == Split(a, c) + Split(b, c)
    ensures Split([x] + (a + [c] + b), c) == Split([x] + a, c) + Split(b, c)
  {
    SplitCons(x, a + [c] + b, c);
    SplitCons(x, a, c);
    if x == c {
      AppendAssoc([""], Split(a, c), Split(b, c));
    } else {
      ConsJoinsFirst([x], Split(a, c), Split(b, c));
    }
  }

  /** Concatenation of sequences is associative. */
  lemma AppendAssoc<T>(u: seq<T>, v: seq<T>, w: seq<T>)
    ensures (u + v) + w == u + (v + w)
  {
  }

  /** Extending the first piece of a non-empty list of pieces commutes
      with appending more pieces. */
  lemma ConsJoinsFirst(p: string, left: seq<string>, right: seq<string>)
    requires |left| > 0
    ensures [p + (left + right)[0]] + (left + right)[1..] == ([p + left[0]] + left[1..]) + right
  {
    assert (left + right)[0] == left[0] && (left + right)[1..] == left[1..] + right;
  }

  /** Joining separator-free pieces and splitting again gives the pieces back. */
  lemma {:induction false} SplitJoin(parts: seq<string>, c: char)
    requires |parts| > 0
    requires forall i :: 0 <= i < |parts| ==> c !in parts[i]
    ensures Split(Join(parts, [c]), c) == parts
    decreases |parts|
  {
    if |parts| == 1 {
      SplitWithout(parts[0], c);
    } else {
      SplitWithout(parts[0], c);
      SplitJoin(parts[1..], c);
      SplitAround(parts[0], c, Join(parts[1..], [c]));
      assert [parts[0]] + parts[1..] == parts;
    }
  }

  // ---------------------------------------------------------------------
  // Decimal numerals
  // ---------------------------------------------------------------------

  /** The value of one ASCII digit. */
  function DigitValue(c: char): (d: nat)
    requires IsDigit(c)
    ensures d < 10
  {
    c as int - '0' as int
  }

  /** The ASCII digit of a value below ten. */
  function DigitChar(d: nat): (c: char)
    requires d < 10
    ensures IsDigit(c) && DigitValue(c) == d
  {
    ('0' as int + d) as char
  }

  /** Every character of `s` is an ASCII digit. */
  predicate AllDigits(s: string)
  {
    forall k :: 0 <= k < |s| ==> IsDigit(s[k])
  }

  /** The natural number a digit string denotes (leading zeros allowed, as
      for `toFloat` on digit strings). */
  function DigitsValue(s: string): nat
    requires AllDigits(s)
    decreases |s|
  {
    if |s| == 0 then 0 else DigitsValue(s[..|s| - 1]) * 10 + DigitValue(s[|s| - 1])
  }

  /** Kotlin's decimal rendering of a natural number (no leading zeros). */
  function NatToDecimal(n: nat): (s: string)
    ensures |s| > 0 && AllDigits(s)
    ensures |s| > 1 ==> s[0] != '0'
    decreases n
  {
    if n < 10 then [DigitChar(n)] else NatToDecimal(n / 10) + [DigitChar(n % 10)]
  }

  /** A decimal numeral: digits, with a leading `-` for a negative value. */
  predicate IsNumeral(s: string)
  {
    (|s| > 0 && AllDigits(s)) || (|s| > 1 && s[0] == '-' && AllDigits(s[1..]))
  }

  /** Kotlin's decimal rendering of an integer ("-" before a negative value). */
  function IntToDecimal(x: int): (s: string)
    ensures IsNumeral(s)
    ensures x >= 0 <==> s[0] != '-'
  {
    if x < 0 then
      var d := NatToDecimal(-x);
      assert ("-" + d)[1..] == d;
      "-" + d
    else NatToDecimal(x)
  }

  /** Reading a rendered number back gives the number. */
  lemma {:induction false} NatToDecimalValue(n: nat)
    ensures DigitsValue(NatToDecimal(n)) == n
    decreases n
  {
    var s := NatToDecimal(n);
    if n >= 10 {
      NatToDecimalValue(n / 10);
      assert s[..|s| - 1] == NatToDecimal(n / 10);
    }
  }
}
