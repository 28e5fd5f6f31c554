/** The page-image extractor (Readmanga.kt, `pageListParse(Response)`): the
    reader page's body embeds `rm_h.init( [ ... ], 0, false);`, and each
    entry of that array holds a path, a host and a suffix that make up one
    image URL. */
module Pages {
  import opened Wrappers
  import opened Text

  const BeginMarker := "rm_h.init( ["
  const EndMarker := "], 0, false);"
  /** The separator after the first quoted field. */
  const FirstSeparator := "','"
  /** The separator after the second quoted field (the third is double-quoted). */
  const SecondSeparator := "',\""

  /** A separator (`','` when `closing` is `'`, `',"` when it is `"`) at `k`,
      compared character by character. */
  predicate SeparatorAt(s: string, k: int, closing: char)
  {
    0 <= k && k + 3 <= |s| && s[k] == '\'' && s[k + 1] == ',' && s[k + 2] == closing
  }

  lemma SeparatorIs(s: string, k: int, closing: char)
    requires SeparatorAt(s, k, closing)
    ensures s[k..k + 3] == ['\'', ',', closing]
  {
  }

  /** A reader page; `Page(i++, "", url)` with the empty page URL left out. */
  datatype Page = Page(index: nat, imageUrl: string)

  /** The exception `substring` throws when a marker is missing. */
  datatype PageError = IndexOutOfBounds

  // ---------------------------------------------------------------------
  // Stage 1: the slice between the markers
  // ---------------------------------------------------------------------

  /** `i` is the first occurrence of `pat` at or after `from`. */
  predicate IsFirst(s: string, pat: string, from: int, i: int)
  {
    from <= i && OccursAt(s, pat, i) && forall k :: from <= k < i ==> !OccursAt(s, pat, k)
  }

  /** `beginIndex` and `endIndex` when `substring(beginIndex, endIndex)`
      succeeds: the first begin marker and the first end marker at or
      after it; None when `substring` throws. */
  function SliceBounds(html: string): (r: Option<(nat, nat)>)
    ensures r.Some? ==> r.value.0 <= r.value.1 <= |html|
                        && IsFirst(html, BeginMarker, 0, r.value.0)
                        && IsFirst(html, EndMarker, r.value.0, r.value.1)
    ensures r.None? <==>
              (forall b :: !OccursAt(html, BeginMarker, b)) ||
              (exists b :: IsFirst(html, BeginMarker, 0, b) &&
                           forall e :: b <= e ==> !OccursAt(html, EndMarker, e))
  {
    var b := IndexOf(html, BeginMarker, 0);
    if b < 0 then None
    else
      var e := IndexOf(html, EndMarker, b);
      assert IsFirst(html, BeginMarker, 0, b);
      if e < 0 then None else Some((b, e))
  }

  // ---------------------------------------------------------------------
  // Stage 2: the pattern '.+?','.+?',".+?"
  // ---------------------------------------------------------------------

  /** No line terminator in `s[lo..hi]`, so `.` matches each of its characters. */
  predicate NoBreak(s: string, lo: int, hi: int)
  {
    0 <= lo <= hi <= |s| && forall k {:trigger IsLineTerminator(s[k])} :: lo <= k < hi ==> !IsLineTerminator(s[k])
  }

  /** A match of the pattern, by the positions of its parts: the opening
      quote at `start`, the first separator at `sep1`, the second at `sep2`
      and the closing double quote at `close`. */
  datatype Match = Match(start: nat, sep1: nat, sep2: nat, close: nat)

  /** The third field `s[b+3..c]` is non-empty, has no line break, and is
      closed by the double quote at `c`. */
  ghost predicate ThirdOk(s: string, b: int, c: int)
  {
    b + 3 < c < |s| && NoBreak(s, b + 3, c) && s[c] == '"'
  }

  /** The second field `s[a+3..b]` is non-empty and line-break free, the
      second separator is at `b`, and a third field ends at `c`. */
  ghost predicate SecondOk(s: string, a: int, b: int, c: int)
  {
    a + 3 < b && SeparatorAt(s, b, '"') && NoBreak(s, a + 3, b) && ThirdOk(s, b, c)
  }

  /** The pattern matches `s[m.start..m.close + 1]` with these parts. */
  ghost predicate IsMatch(s: string, m: Match)
  {
    m.start < |s| && s[m.start] == '\'' &&
    m.start + 1 < m.sep1 && SeparatorAt(s, m.sep1, '\'') && NoBreak(s, m.start + 1, m.sep1) &&
    SecondOk(s, m.sep1, m.sep2, m.close)
  }

  /** The order in which a backtracking engine tries matches: leftmost
      start first, then each lazy field as short as possible, in order. */
  predicate EngineOrder(m: Match, n: Match)
  {
    m.start < n.start ||
    (m.start == n.start &&
      (m.sep1 < n.sep1 ||
        (m.sep1 == n.sep1 &&
          (m.sep2 < n.sep2 || (m.sep2 == n.sep2 && m.close <= n.close)))))
  }

  /** The end of the shortest third field from `k` on (the field so far
      being `s[b+3..k]`). */
  function ThirdScan(s: string, b: nat, k: nat): (r: Option<nat>)
    requires b + 3 < k <= |s|
    ensures r.Some? ==> k <= r.value < |s|
    decreases |s| - k
  {
    if k == |s| then None
    else if s[k] == '"' then Some(k)
    else if IsLineTerminator(s[k]) then None
    else ThirdScan(s, b, k + 1)
  }

  lemma {:induction false} ThirdScanSound(s: string, b: nat, k: nat)
    requires b + 3 < k <= |s| && NoBreak(s, b + 3, k)
    ensures ThirdScan(s, b, k).Some? ==> ThirdOk(s, b, ThirdScan(s, b, k).value)
    decreases |s| - k
  {
    if k < |s| && s[k] != '"' && !IsLineTerminator(s[k]) {
      ThirdScanSound(s, b, k + 1);
    }
  }

  lemma {:induction false} ThirdScanFirst(s: string, b: nat, k: nat, c: nat)
    requires b + 3 < k <= |s| && NoBreak(s, b + 3, k)
    requires k <= c && ThirdOk(s, b, c)
    ensures ThirdScan(s, b, k).Some? && ThirdScan(s, b, k).value <= c
    decreases |s| - k
  {
    if s[k] != '"' {
      ThirdScanFirst(s, b, k + 1, c);
    }
  }

  /** The end of the shortest third field after a second separator at `b`. */
  function ThirdField(s: string, b: nat): (r: Option<nat>)
    requires b + 3 <= |s|
    ensures r.Some? ==> b + 3 < r.value < |s|
  {
    if b + 3 < |s| && !IsLineTerminator(s[b + 3]) then ThirdScan(s, b, b + 4) else None
  }

  lemma ThirdFieldSound(s: string, b: nat)
    requires b + 3 <= |s|
    ensures ThirdField(s, b).Some? ==> ThirdOk(s, b, ThirdField(s, b).value)
  {
    if b + 3 < |s| && !IsLineTerminator(s[b + 3]) {
      ThirdScanSound(s, b, b + 4);
    }
  }

  lemma ThirdFieldFirst(s: string, b: nat, c: nat)
    requires b + 3 <= |s| && ThirdOk(s, b, c)
    ensures ThirdField(s, b).Some? && ThirdField(s, b).value <= c
  {
    ThirdScanFirst(s, b, b + 4, c);
  }

  /** The shortest second field from `k` on that the rest of the pattern can
      follow, with the third field chosen shortest after it. */
  function SecondScan(s: string, a: nat, k: nat): (r: Option<(nat, nat)>)
    requires a + 3 < k <= |s|
    ensures r.Some? ==> k <= r.value.0 && r.value.0 + 3 < r.value.1 < |s|
    decreases |s| - k
  {
    var third := if SeparatorAt(s, k, '"') then ThirdField(s, k) else None;
    if third.Some? then Some((k, third.value))
    else if k == |s| || IsLineTerminator(s[k]) then None
    else SecondScan(s, a, k + 1)
  }

  lemma {:induction false} SecondScanSound(s: string, a: nat, k: nat)
    requires a + 3 < k <= |s| && NoBreak(s, a + 3, k)
    ensures var r := SecondScan(s, a, k);
            r.Some? ==> SecondOk(s, a, r.value.0, r.value.1)
    decreases |s| - k
  {
    if SeparatorAt(s, k, '"') && ThirdField(s, k).Some? {
      ThirdFieldSound(s, k);
    } else if k < |s| && !IsLineTerminator(s[k]) {
      SecondScanSound(s, a, k + 1);
    }
  }

  lemma {:induction false} SecondScanFirst(s: string, a: nat, k: nat, b: nat, c: nat)
    requires a + 3 < k <= |s| && NoBreak(s, a + 3, k)
    requires k <= b && SecondOk(s, a, b, c)
    ensures var r := SecondScan(s, a, k);
            r.Some? && (r.value.0 < b || (r.value.0 == b && r.value.1 <= c))
    decreases |s| - k
  {
    if b == k {
      ThirdFieldFirst(s, k, c);
    } else if !(SeparatorAt(s, k, '"') && ThirdField(s, k).Some?) {
      SecondScanFirst(s, a, k + 1, b, c);
    }
  }

  /** The shortest second field after a first separator at `a`. */
  function SecondField(s: string, a: nat): (r: Option<(nat, nat)>)
    requires a + 3 <= |s|
    ensures r.Some? ==> a + 3 < r.value.0 && r.value.0 + 3 < r.value.1 < |s|
  {
    if a + 3 < |s| && !IsLineTerminator(s[a + 3]) then SecondScan(s, a, a + 4) else None
  }

  lemma SecondFieldSound(s: string, a: nat)
    requires a + 3 <= |s|
    ensures var r := SecondField(s, a);
            r.Some? ==> SecondOk(s, a, r.value.0, r.value.1)
  {
    if a + 3 < |s| && !IsLineTerminator(s[a + 3]) {
      SecondScanSound(s, a, a + 4);
    }
  }

  lemma SecondFieldFirst(s: string, a: nat, b: nat, c: nat)
    requires a + 3 <= |s| && SecondOk(s, a, b, c)
    ensures var r := SecondField(s, a);
            r.Some? && (r.value.0 < b || (r.value.0 == b && r.value.1 <= c))
  {
    SecondScanFirst(s, a, a + 4, b, c);
  }

  /** The first match in engine order that starts at `st` and whose first
      field ends at or after `k` (the field so far being `s[st+1..k]`). */
  function FirstScan(s: string, st: nat, k: nat): (r: Option<Match>)
    requires st + 1 < k <= |s|
    ensures r.Some? ==> r.value.start == st && k <= r.value.sep1 && r.value.sep1 < r.value.close < |s|
    decreases |s| - k
  {
    var second := if SeparatorAt(s, k, '\'') then SecondField(s, k) else None;
    if second.Some? then Some(Match(st, k, second.value.0, second.value.1))
    else if k == |s| || IsLineTerminator(s[k]) then None
    else FirstScan(s, st, k + 1)
  }

  lemma {:induction false} FirstScanSound(s: string, st: nat, k: nat)
    requires st < |s| && s[st] == '\''
    requires st + 1 < k <= |s| && NoBreak(s, st + 1, k)
    ensures FirstScan(s, st, k).Some? ==> IsMatch(s, FirstScan(s, st, k).value)
    decreases |s| - k
  {
    if SeparatorAt(s, k, '\'') && SecondField(s, k).Some? {
      SecondFieldSound(s, k);
    } else if k < |s| && !IsLineTerminator(s[k]) {
      FirstScanSound(s, st, k + 1);
    }
  }

  lemma {:induction false} FirstScanFirst(s: string, st: nat, k: nat, m: Match)
    requires st < |s| && s[st] == '\''
    requires st + 1 < k <= |s| && NoBreak(s, st + 1, k)
    requires m.start == st && k <= m.sep1 && IsMatch(s, m)
    ensures FirstScan(s, st, k).Some? && EngineOrder(FirstScan(s, st, k).value, m)
    decreases |s| - k
  {
    if m.sep1 == k {
      SecondFieldFirst(s, k, m.sep2, m.close);
    } else if !(SeparatorAt(s, k, '\'') && SecondField(s, k).Some?) {
      FirstScanFirst(s, st, k + 1, m);
    }
  }

  /** The first match in engine order that starts at `st`. */
  function MatchAt(s: string, st: nat): (r: Option<Match>)
    requires st <= |s|
    ensures r.Some? ==> r.value.start == st < r.value.close < |s|
  {
    if st + 1 < |s| && s[st] == '\'' && !IsLineTerminator(s[st + 1]) then FirstScan(s, st, st + 2)
    else None
  }

  lemma MatchAtSound(s: string, st: nat)
    requires st <= |s|
    ensures MatchAt(s, st).Some? ==> IsMatch(s, MatchAt(s, st).value)
  {
    if st + 1 < |s| && s[st] == '\'' && !IsLineTerminator(s[st + 1]) {
      FirstScanSound(s, st, st + 2);
    }
  }

  lemma MatchAtFirst(s: string, m: Match)
    requires m.start <= |s| && IsMatch(s, m)
    ensures MatchAt(s, m.start).Some? && EngineOrder(MatchAt(s, m.start).value, m)
  {
    FirstScanFirst(s, m.start, m.start + 2, m);
  }

  /** `Matcher.find()` from `from`: the first match in engine order among
      those starting at or after `from`. */
  function Find(s: string, from: nat): (r: Option<Match>)
    requires from <= |s|
    ensures r.Some? ==> from <= r.value.start < r.value.close < |s|
    decreases |s| - from
  {
    var here := MatchAt(s, from);
    if here.Some? then here
    else if from == |s| then None
    else Find(s, from + 1)
  }

  /** What `Find` returns is a match of the pattern. */
  lemma {:induction false} FindSound(s: string, from: nat)
    requires from <= |s|
    ensures Find(s, from).Some? ==> IsMatch(s, Find(s, from).value)
    decreases |s| - from
  {
    if MatchAt(s, from).Some? {
      MatchAtSound(s, from);
    } else if from < |s| {
      FindSound(s, from + 1);
    }
  }

  /** `Find` returns the first match in engine order: no match starting at
      or after `from` comes before it, and there is none when it fails. */
  lemma {:induction false} FindFirst(s: string, from: nat, m: Match)
    requires from <= |s| && from <= m.start && IsMatch(s, m)
    ensures Find(s, from).Some? && EngineOrder(Find(s, from).value, m)
    decreases |s| - from
  {
    if m.start == from {
      MatchAtFirst(s, m);
    } else if MatchAt(s, from).None? {
      FindFirst(s, from + 1, m);
    }
  }

  /** The successive matches that repeated `find` calls return from `from`:
      each search resumes where the previous match ended. */
  function Matches(s: string, from: nat): seq<Match>
    requires from <= |s|
    decreases |s| - from
  {
    match Find(s, from)
    case None => []
    case Some(m) => [m] + Matches(s, m.close + 1)
  }

  /** The matches `ms` lie at or after `from`, in order and without overlap. */
  ghost predicate ScannedFrom(s: string, ms: seq<Match>, from: nat)
  {
    (forall k :: 0 <= k < |ms| ==> from <= ms[k].start && IsMatch(s, ms[k])) &&
    (forall k :: 0 <= k < |ms| - 1 ==> ms[k].close < ms[k + 1].start)
  }

  /** One more match in front, ending before the others start. */
  lemma ConsScanned(s: string, m: Match, ms: seq<Match>, from: nat, next: nat)
    requires from <= m.start && IsMatch(s, m) && next == m.close + 1 && ScannedFrom(s, ms, next)
    ensures ScannedFrom(s, [m] + ms, from)
  {
    var ms' := [m] + ms;
    forall k | 0 <= k < |ms'| ensures from <= ms'[k].start && IsMatch(s, ms'[k]) {
      if k > 0 {
        assert ms'[k] == ms[k - 1];
      }
    }
    forall k | 0 <= k < |ms'| - 1 ensures ms'[k].close < ms'[k + 1].start {
      assert ms'[k + 1] == ms[k];
      if k > 0 {
        assert ms'[k] == ms[k - 1];
      }
    }
  }

  lemma {:induction false} MatchesScanned(s: string, from: nat)
    requires from <= |s|
    ensures ScannedFrom(s, Matches(s, from), from)
    decreases |s| - from
  {
    if Find(s, from).Some? {
      var m := Find(s, from).value;
      FindSound(s, from);
      var next := m.close + 1;
      MatchesStep(s, from, next);
      MatchesScanned(s, next);
      ConsScanned(s, m, Matches(s, next), from, next);
    }
  }

  /** Every scanned match is a match of the pattern at or after `from`, and
      each starts after the previous one ends. */
  lemma MatchesInOrder(s: string, from: nat)
    requires from <= |s|
    ensures forall k :: 0 <= k < |Matches(s, from)| ==>
              from <= Matches(s, from)[k].start && IsMatch(s, Matches(s, from)[k])
    ensures forall k :: 0 <= k < |Matches(s, from)| - 1 ==>
              Matches(s, from)[k].close < Matches(s, from)[k + 1].start
  {
    MatchesScanned(s, from);
  }

  /** One step of the scan: the first match, then the matches after it. */
  lemma MatchesStep(s: string, from: nat, next: nat)
    requires from <= |s| && Find(s, from).Some? && next == Find(s, from).value.close + 1
    ensures next <= |s|
    ensures Matches(s, from) == [Find(s, from).value] + Matches(s, next)
  {
  }

  // ---------------------------------------------------------------------
  // From a match to an image URL
  // ---------------------------------------------------------------------

  predicate IsQuote(c: char)
  {
    c == '\'' || c == '"'
  }

  /** `replace("[\"']+".toRegex(), "")`: every quote character removed. */
  function StripQuotes(s: string): (r: string)
    ensures |r| <= |s|
    decreases |s|
  {
    if |s| == 0 then ""
    else if IsQuote(s[0]) then StripQuotes(s[1..])
    else [s[0]] + StripQuotes(s[1..])
  }

  /** The stripped text holds exactly the non-quote characters of the input. */
  lemma {:induction false} StripQuotesChars(s: string)
    ensures forall x :: x in StripQuotes(s) <==> x in s && !IsQuote(x)
    decreases |s|
  {
    if |s| > 0 {
      StripQuotesChars(s[1..]);
      assert s == [s[0]] + s[1..];
    }
  }

  lemma {:induction false} StripQuotesAppend(a: string, b: string)
    ensures StripQuotes(a + b) == StripQuotes(a) + StripQuotes(b)
    decreases |a|
  {
    if |a| > 0 {
      assert (a + b)[0] == a[0];
      assert (a + b)[1..] == a[1..] + b;
      StripQuotesAppend(a[1..], b);
      if IsQuote(a[0]) {
        assert StripQuotes(a + b) == StripQuotes(a[1..] + b);
        assert StripQuotes(a) == StripQuotes(a[1..]);
      } else {
        assert StripQuotes(a + b) == [a[0]] + StripQuotes(a[1..] + b);
        assert StripQuotes(a) == [a[0]] + StripQuotes(a[1..]);
      }
    } else {
      assert a + b == b;
    }
  }

  /** The three fields of a match, quotes still in them. */
  function Field1(s: string, m: Match): string
    requires IsMatch(s, m)
  {
    s[m.start + 1..m.sep1]
  }

  function Field2(s: string, m: Match): string
    requires IsMatch(s, m)
  {
    s[m.sep1 + 3..m.sep2]
  }

  function Field3(s: string, m: Match): string
    requires IsMatch(s, m)
  {
    s[m.sep2 + 3..m.close]
  }

  /** The matched text, `m.group()`. */
  function MatchText(s: string, m: Match): string
    requires IsMatch(s, m)
  {
    s[m.start..m.close + 1]
  }

  /** Stripping a slice in two pieces. */
  lemma StripSlices(s: string, a: nat, b: nat, c: nat)
    requires a <= b <= c <= |s|
    ensures StripQuotes(s[a..c]) == StripQuotes(s[a..b]) + StripQuotes(s[b..c])
  {
    assert s[a..c] == s[a..b] + s[b..c];
    StripQuotesAppend(s[a..b], s[b..c]);
  }

  /** A separator loses its quotes and keeps its comma. */
  lemma StripSeparator(s: string, k: nat, closing: char)
    requires SeparatorAt(s, k, closing) && IsQuote(closing)
    ensures StripQuotes(s[k..k + 3]) == ","
  {
    SeparatorIs(s, k, closing);
    var sep := s[k..k + 3];
    assert sep[1..] == [',', closing] && sep[1..][1..] == [closing];
    assert StripQuotes([closing]) == "";
  }

  /** A quote character alone strips to nothing. */
  lemma StripQuoteAt(s: string, k: nat)
    requires k < |s| && IsQuote(s[k])
    ensures StripQuotes(s[k..k + 1]) == ""
  {
    assert s[k..k + 1] == [s[k]];
  }

  /** The quote stripping of `'f1','f2` laid out at positions `a` (opening
      quote) and `b` (separator), up to `c`. */
  lemma StrippedFirstTwo(s: string, a: nat, b: nat, c: nat)
    requires a < b && b + 3 <= c <= |s|
    requires IsQuote(s[a]) && SeparatorAt(s, b, '\'')
    ensures StripQuotes(s[a..c]) == StripQuotes(s[a + 1..b]) + "," + StripQuotes(s[b + 3..c])
  {
    StripQuoteAt(s, a);
    StripSlices(s, a, a + 1, b);
    assert StripQuotes(s[a..b]) == StripQuotes(s[a + 1..b]);
    StripSeparator(s, b, '\'');
    StripSlices(s, a, b, b + 3);
    StripSlices(s, a, b + 3, c);
  }

  /** The quote stripping of the text from `a` that ends in `,"f3"` with its
      separator at `c` and its closing quote at `d`. */
  lemma StrippedLastTwo(s: string, a: nat, c: nat, d: nat)
    requires a <= c && c + 3 <= d < |s|
    requires IsQuote(s[d]) && SeparatorAt(s, c, '"')
    ensures StripQuotes(s[a..d + 1]) == StripQuotes(s[a..c]) + "," + StripQuotes(s[c + 3..d])
  {
    StripSeparator(s, c, '"');
    StripSlices(s, a, c, c + 3);
    StripSlices(s, a, c + 3, d);
    var whole := StripQuotes(s[a..d]);
    StripQuoteAt(s, d);
    StripSlices(s, a, d, d + 1);
    assert whole + "" == whole;
  }

  /** The quote stripping of `'f1','f2',"f3"` laid out at positions `a`
      (opening quote), `b` and `c` (separators) and `d` (closing quote). */
  lemma StrippedLayout(s: string, a: nat, b: nat, c: nat, d: nat)
    requires a < b && b + 3 <= c && c + 3 <= d < |s|
    requires IsQuote(s[a]) && IsQuote(s[d])
    requires SeparatorAt(s, b, '\'') && SeparatorAt(s, c, '"')
    ensures StripQuotes(s[a..d + 1])
         == StripQuotes(s[a + 1..b]) + "," + StripQuotes(s[b + 3..c]) + "," + StripQuotes(s[c + 3..d])
  {
    StrippedFirstTwo(s, a, b, c);
    StrippedLastTwo(s, a, c, d);
  }

  /** Without its quotes, a match reads field 1, a comma, field 2, a comma,
      field 3. */
  lemma StrippedMatch(s: string, m: Match)
    requires IsMatch(s, m)
    ensures StripQuotes(MatchText(s, m))
         == StripQuotes(Field1(s, m)) + "," + StripQuotes(Field2(s, m)) + "," + StripQuotes(Field3(s, m))
  {
    StrippedLayout(s, m.start, m.sep1, m.sep2, m.close);
  }

  /** The comma-separated parts of a stripped match: those of each field in
      turn, so there are at least three. */
  lemma StrippedMatchParts(s: string, m: Match)
    requires IsMatch(s, m)
    ensures var parts := Split(StripQuotes(MatchText(s, m)), ',');
            parts == Split(StripQuotes(Field1(s, m)), ',') + Split(StripQuotes(Field2(s, m)), ',')
                     + Split(StripQuotes(Field3(s, m)), ',')
            && |parts| >= 3
  {
    StrippedMatch(s, m);
    SplitThree(StripQuotes(Field1(s, m)), StripQuotes(Field2(s, m)), StripQuotes(Field3(s, m)));
  }

  /** Three pieces joined by commas split into the parts of each piece. */
  lemma SplitThree(g1: string, g2: string, g3: string)
    ensures Split(g1 + "," + g2 + "," + g3, ',') == Split(g1, ',') + Split(g2, ',') + Split(g3, ',')
  {
    assert g1 + "," + g2 + "," + g3 == g1 + [','] + (g2 + [','] + g3);
    SplitAround(g1, ',', g2 + [','] + g3);
    SplitAround(g2, ',', g3);
  }

  /** `urlParts[1] + urlParts[0] + urlParts[2]` of a match. */
  function ImageUrl(s: string, m: Match): string
    requires IsMatch(s, m)
  {
    var parts := Split(StripQuotes(MatchText(s, m)), ',');
    StrippedMatchParts(s, m);
    parts[1] + parts[0] + parts[2]
  }

  /** Every character of a part is a character of the split string. */
  lemma {:induction false} SplitKeepsChars(s: string, c: char, i: nat, x: char)
    requires i < |Split(s, c)| && x in Split(s, c)[i]
    ensures x in s
    decreases |s|
  {
    if |s| > 0 {
      var rest := Split(s[1..], c);
      if s[0] == c {
        if i > 0 { SplitKeepsChars(s[1..], c, i - 1, x); }
      } else if i == 0 {
        if x != s[0] { SplitKeepsChars(s[1..], c, 0, x); }
      } else {
        SplitKeepsChars(s[1..], c, i, x);
      }
    }
  }

  /** An image URL holds no quote character. */
  lemma ImageUrlHasNoQuotes(s: string, m: Match)
    requires IsMatch(s, m)
    ensures forall x :: x in ImageUrl(s, m) ==> !IsQuote(x)
  {
    var stripped := StripQuotes(MatchText(s, m));
    var parts := Split(stripped, ',');
    StrippedMatchParts(s, m);
    StripQuotesChars(MatchText(s, m));
    forall x | x in ImageUrl(s, m) ensures !IsQuote(x) {
      var i :| 0 <= i < 3 && x in parts[i];
      SplitKeepsChars(stripped, ',', i, x);
    }
  }

  /** When no field holds a comma, the URL is the second field, then the
      first, then the third, each without quotes. */
  lemma ImageUrlWithoutCommas(s: string, m: Match)
    requires IsMatch(s, m)
    requires ',' !in Field1(s, m) && ',' !in Field2(s, m) && ',' !in Field3(s, m)
    ensures ImageUrl(s, m)
         == StripQuotes(Field2(s, m)) + StripQuotes(Field1(s, m)) + StripQuotes(Field3(s, m))
  {
    StrippedMatchParts(s, m);
    StripQuotesChars(Field1(s, m));
    StripQuotesChars(Field2(s, m));
    StripQuotesChars(Field3(s, m));
    SplitWithout(StripQuotes(Field1(s, m)), ',');
    SplitWithout(StripQuotes(Field2(s, m)), ',');
    SplitWithout(StripQuotes(Field3(s, m)), ',');
  }

  // ---------------------------------------------------------------------
  // pageListParse
  // ---------------------------------------------------------------------

  /** The pages that the `while (m.find())` loop adds from `from` on, the
      next one numbered `index`: one page per match, in the order `find`
      returns them. */
  function PagesFrom(t: string, from: nat, index: nat): seq<Page>
    requires from <= |t|
    decreases |t| - from
  {
    match Find(t, from)
    case None => []
    case Some(m) =>
      FindSound(t, from);
      [Page(index, ImageUrl(t, m))] + PagesFrom(t, m.close + 1, index + 1)
  }

  /** `ps` are the pages of the matches `ms`, numbered from `index`. */
  ghost predicate Follows(t: string, ps: seq<Page>, ms: seq<Match>, index: nat)
  {
    |ps| == |ms| &&
    forall k :: 0 <= k < |ms| ==> IsMatch(t, ms[k]) && ps[k] == Page(index + k, ImageUrl(t, ms[k]))
  }

  /** The page of one more match in front. */
  lemma ConsFollows(t: string, m: Match, ms: seq<Match>, ps: seq<Page>, index: nat)
    requires IsMatch(t, m) && Follows(t, ps, ms, index + 1)
    ensures Follows(t, [Page(index, ImageUrl(t, m))] + ps, [m] + ms, index)
  {
    var ps', ms' := [Page(index, ImageUrl(t, m))] + ps, [m] + ms;
    forall k | 0 <= k < |ms'|
      ensures IsMatch(t, ms'[k]) && ps'[k] == Page(index + k, ImageUrl(t, ms'[k]))
    {
      if k > 0 {
        assert ms'[k] == ms[k - 1] && ps'[k] == ps[k - 1];
      }
    }
  }

  lemma {:induction false} PagesFollow(t: string, from: nat, index: nat)
    requires from <= |t|
    ensures Follows(t, PagesFrom(t, from, index), Matches(t, from), index)
    decreases |t| - from
  {
    if Find(t, from).Some? {
      var m := Find(t, from).value;
      var next, nextIndex := m.close + 1, index + 1;
      PagesStep(t, from, index, next, nextIndex);
      MatchesStep(t, from, next);
      PagesFollow(t, next, nextIndex);
      ConsFollows(t, m, Matches(t, next), PagesFrom(t, next, nextIndex), index);
    }
  }

  /** The pages are numbered consecutively and follow the successive
      matches: page `k` carries the image URL of match `k`. */
  lemma PagesFollowMatches(t: string, from: nat, index: nat)
    requires from <= |t|
    ensures |PagesFrom(t, from, index)| == |Matches(t, from)|
    ensures forall k :: 0 <= k < |Matches(t, from)| ==>
              IsMatch(t, Matches(t, from)[k]) &&
              PagesFrom(t, from, index)[k] == Page(index + k, ImageUrl(t, Matches(t, from)[k]))
  {
    PagesFollow(t, from, index);
  }

  /** No image URL holds a quote character. */
  lemma PagesHaveNoQuotes(t: string, from: nat, index: nat)
    requires from <= |t|
    ensures forall k, x :: 0 <= k < |PagesFrom(t, from, index)| && x in PagesFrom(t, from, index)[k].imageUrl ==>
              !IsQuote(x)
  {
    var ps, ms := PagesFrom(t, from, index), Matches(t, from);
    PagesFollowMatches(t, from, index);
    forall k | 0 <= k < |ps| ensures forall x :: x in ps[k].imageUrl ==> !IsQuote(x) {
      ImageUrlHasNoQuotes(t, ms[k]);
    }
  }

  /** Every match ends in a double quote, so a slice without one yields no
      pages (for instance when the third field is single-quoted). */
  lemma PagesNeedDoubleQuote(t: string, from: nat, index: nat)
    requires from <= |t|
    ensures PagesFrom(t, from, index) != [] ==> '"' in t
  {
    FindSound(t, from);
    if Find(t, from).Some? {
      var m := Find(t, from).value;
      assert t[m.close] == '"';
    }
  }

  /** A text without quote characters is left as it is. */
  lemma {:induction false} StripQuotesKeeps(s: string)
    requires '\'' !in s && '"' !in s
    ensures StripQuotes(s) == s
    decreases |s|
  {
    if |s| > 0 {
      assert s[0] in s;
      assert forall x :: x in s[1..] ==> x in s;
      StripQuotesKeeps(s[1..]);
      assert [s[0]] + s[1..] == s;
    }
  }

  /** A field that none of the pattern's delimiters can cut short: no
      quote, no comma, no line break and no `]`. */
  predicate Plain(f: string)
  {
    |f| > 0 && forall c :: c in f ==> !IsQuote(c) && !IsLineTerminator(c) && c != ',' && c != ']'
  }

  /** One array entry with a double-quoted third field. */
  function Entry(f1: string, f2: string, f3: string): string
  {
    "'" + f1 + FirstSeparator + f2 + SecondSeparator + f3 + "\""
  }

  /** A body that opens with the begin marker and holds no `]` is sliced
      from its start to the end marker appended to it. */
  lemma SliceOfBody(body: string)
    requires |body| >= 12 && body[..12] == BeginMarker && ']' !in body
    ensures SliceBounds(body + EndMarker) == Some((0, |body|))
  {
    var html := body + EndMarker;
    assert html[0..12] == BeginMarker;
    assert html[|body|..|body| + 13] == EndMarker;
    assert OccursAt(html, BeginMarker, 0);
    assert OccursAt(html, EndMarker, |body|);
    forall k | 0 <= k < |body| ensures !OccursAt(html, EndMarker, k) {
      assert html[k] == body[k] && body[k] in body;
      MismatchAt(html, EndMarker, k, 0);
    }
    assert IndexOf(html, BeginMarker, 0) == 0;
    assert IndexOf(html, EndMarker, 0) == |body|;
  }

  /** The match that covers one entry placed after the begin marker. */
  function EntryMatch(f1: string, f2: string, f3: string): Match
  {
    Match(12, 13 + |f1|, 16 + |f1| + |f2|, 19 + |f1| + |f2| + |f3|)
  }

  /** The slice of a concatenation at the position of its middle part. */
  lemma Middle(a: string, f: string, b: string)
    ensures (a + f + b)[|a|..|a| + |f|] == f
  {
  }

  /** Where the parts of an entry sit after the begin marker. */
  lemma EntryLayout(f1: string, f2: string, f3: string)
    ensures var t, m := BeginMarker + Entry(f1, f2, f3), EntryMatch(f1, f2, f3);
            && |t| == m.close + 1 && t[m.start] == '\'' && t[m.close] == '"'
            && t[m.start + 1..m.sep1] == f1 && t[m.sep1..m.sep1 + 3] == FirstSeparator
            && t[m.sep1 + 3..m.sep2] == f2 && t[m.sep2..m.sep2 + 3] == SecondSeparator
            && t[m.sep2 + 3..m.close] == f3
  {
    var tail := FirstSeparator + f2 + SecondSeparator + f3 + "\"";
    var third := SecondSeparator + f3 + "\"";
    EntryRegroup(f1, f2, f3);
    Middle(BeginMarker + "'", f1, tail);
    Middle(BeginMarker + "'" + f1, FirstSeparator, f2 + third);
    Middle(BeginMarker + "'" + f1 + FirstSeparator, f2, third);
    Middle(BeginMarker + "'" + f1 + FirstSeparator + f2, SecondSeparator, f3 + "\"");
    Middle(BeginMarker + "'" + f1 + FirstSeparator + f2 + SecondSeparator, f3, "\"");
  }

  /** The same entry, grouped around each of its parts. */
  lemma EntryRegroup(f1: string, f2: string, f3: string)
    ensures var t, third := BeginMarker + Entry(f1, f2, f3), SecondSeparator + f3 + "\"";
            && t == BeginMarker + "'" + f1 + (FirstSeparator + f2 + third)
            && t == BeginMarker + "'" + f1 + FirstSeparator + (f2 + third)
            && t == BeginMarker + "'" + f1 + FirstSeparator + f2 + third
            && t == BeginMarker + "'" + f1 + FirstSeparator + f2 + SecondSeparator + (f3 + "\"")
            && t == BeginMarker + "'" + f1 + FirstSeparator + f2 + SecondSeparator + f3 + "\""
  {
  }

  /** Three characters that spell a separator. */
  lemma SpelledSeparator(t: string, k: nat, closing: char)
    requires k + 3 <= |t| && t[k..k + 3] == ['\'', ',', closing]
    ensures SeparatorAt(t, k, closing)
  {
    assert t[k] == t[k..k + 3][0] && t[k + 1] == t[k..k + 3][1] && t[k + 2] == t[k..k + 3][2];
  }

  lemma EntryIsMatch(f1: string, f2: string, f3: string)
    requires Plain(f1) && Plain(f2) && Plain(f3)
    ensures IsMatch(BeginMarker + Entry(f1, f2, f3), EntryMatch(f1, f2, f3))
    ensures var t, m := BeginMarker + Entry(f1, f2, f3), EntryMatch(f1, f2, f3);
            Field1(t, m) == f1 && Field2(t, m) == f2 && Field3(t, m) == f3
  {
    var t, m := BeginMarker + Entry(f1, f2, f3), EntryMatch(f1, f2, f3);
    EntryLayout(f1, f2, f3);
    FieldNoBreak(t, m.start + 1, m.sep1, f1);
    FieldNoBreak(t, m.sep1 + 3, m.sep2, f2);
    FieldNoBreak(t, m.sep2 + 3, m.close, f3);
    SpelledSeparator(t, m.sep1, '\'');
    SpelledSeparator(t, m.sep2, '"');
  }

  /** The text between `lo` and `hi` is a plain field. */
  lemma FieldNoBreak(t: string, lo: nat, hi: nat, f: string)
    requires Plain(f) && lo <= hi <= |t| && t[lo..hi] == f
    ensures NoBreak(t, lo, hi)
    ensures forall k :: lo <= k < hi ==> !IsQuote(t[k])
  {
    forall k | lo <= k < hi ensures !IsLineTerminator(t[k]) && !IsQuote(t[k]) {
      assert t[k] == f[k - lo] && f[k - lo] in f;
    }
  }

  /** Nothing comes before the entry's own match in engine order. */
  lemma EntryOnlyMatch(f1: string, f2: string, f3: string, n: Match)
    requires Plain(f1) && Plain(f2) && Plain(f3)
    requires IsMatch(BeginMarker + Entry(f1, f2, f3), n) && EngineOrder(n, EntryMatch(f1, f2, f3))
    ensures n == EntryMatch(f1, f2, f3)
  {
    var t, m := BeginMarker + Entry(f1, f2, f3), EntryMatch(f1, f2, f3);
    EntryIsMatch(f1, f2, f3);
    FieldNoBreak(t, m.start + 1, m.sep1, f1);
    FieldNoBreak(t, m.sep1 + 3, m.sep2, f2);
    FieldNoBreak(t, m.sep2 + 3, m.close, f3);
    MarkerHasNoQuote(t);
    assert n.start == m.start;
    assert n.sep1 == m.sep1;
    assert n.sep2 == m.sep2;
  }

  /** No quote character occurs in the part of a body that is the begin marker. */
  lemma MarkerHasNoQuote(t: string)
    requires |t| >= 12 && t[..12] == BeginMarker
    ensures forall k :: 0 <= k < 12 ==> t[k] != '\''
  {
    assert '\'' !in BeginMarker;
    forall k | 0 <= k < 12 ensures t[k] != '\'' {
      assert t[k] == BeginMarker[k] && BeginMarker[k] in BeginMarker;
    }
  }

  /** `find` on one entry returns the entry's match, and nothing after it. */
  lemma EntryFind(f1: string, f2: string, f3: string)
    requires Plain(f1) && Plain(f2) && Plain(f3)
    ensures var t, m := BeginMarker + Entry(f1, f2, f3), EntryMatch(f1, f2, f3);
            Find(t, 0) == Some(m) && m.close + 1 == |t| && Find(t, |t|).None?
  {
    var t, m := BeginMarker + Entry(f1, f2, f3), EntryMatch(f1, f2, f3);
    EntryIsMatch(f1, f2, f3);
    FindFirst(t, 0, m);
    FindSound(t, 0);
    EntryOnlyMatch(f1, f2, f3, Find(t, 0).value);
  }

  /** One well-formed entry yields exactly one page, index 0, whose URL is
      the second field, then the first, then the third. */
  lemma OneEntryOnePage(f1: string, f2: string, f3: string)
    requires Plain(f1) && Plain(f2) && Plain(f3)
    ensures var body := BeginMarker + Entry(f1, f2, f3);
            SliceBounds(body + EndMarker) == Some((0, |body|))
            && PagesFrom(body, 0, 0) == [Page(0, f2 + f1 + f3)]
  {
    var t, m := BeginMarker + Entry(f1, f2, f3), EntryMatch(f1, f2, f3);
    EntrySlice(f1, f2, f3);
    EntryFind(f1, f2, f3);
    EntryIsMatch(f1, f2, f3);
    ImageUrlWithoutCommas(t, m);
    StripQuotesKeeps(f1);
    StripQuotesKeeps(f2);
    StripQuotesKeeps(f3);
    assert PagesFrom(t, 0, 0) == [Page(0, ImageUrl(t, m))] + PagesFrom(t, |t|, 1);
  }

  lemma EntrySlice(f1: string, f2: string, f3: string)
    requires Plain(f1) && Plain(f2) && Plain(f3)
    ensures var body := BeginMarker + Entry(f1, f2, f3);
            SliceBounds(body + EndMarker) == Some((0, |body|))
  {
    var t := BeginMarker + Entry(f1, f2, f3);
    assert ']' !in t;
    assert t[..12] == BeginMarker;
    SliceOfBody(t);
  }

  /** With the third field single-quoted, as in
      `rm_h.init( ['/p1.jpg','https://cdn/','?x'], 0, false);`, both markers
      are found but the pattern needs a double quote before the third
      field, so no page comes out. */
  lemma SingleQuotedEntryNoPage(f1: string, f2: string, f3: string)
    requires Plain(f1) && Plain(f2) && Plain(f3)
    ensures var body := BeginMarker + "'" + f1 + FirstSeparator + f2 + FirstSeparator + f3 + "'";
            SliceBounds(body + EndMarker) == Some((0, |body|))
            && PagesFrom(body, 0, 0) == []
  {
    var t := BeginMarker + "'" + f1 + FirstSeparator + f2 + FirstSeparator + f3 + "'";
    SingleQuotedEntrySlice(f1, f2, f3);
    assert '"' !in t by {
      assert '"' !in BeginMarker + "'" && '"' !in FirstSeparator && '"' !in "'";
    }
    PagesNeedDoubleQuote(t, 0, 0);
  }

  lemma SingleQuotedEntrySlice(f1: string, f2: string, f3: string)
    requires Plain(f1) && Plain(f2) && Plain(f3)
    ensures var body := BeginMarker + "'" + f1 + FirstSeparator + f2 + FirstSeparator + f3 + "'";
            SliceBounds(body + EndMarker) == Some((0, |body|))
  {
    var t := BeginMarker + "'" + f1 + FirstSeparator + f2 + FirstSeparator + f3 + "'";
    assert ']' !in t;
    assert t[..12] == BeginMarker;
    SliceOfBody(t);
  }

  /** The entry `'/p1.jpg','https://cdn/',"?x"` gives the page
      `https://cdn//p1.jpg?x`. */
  lemma OneEntryExample()
    ensures PagesFrom(BeginMarker + Entry("/p1.jpg", "https://cdn/", "?x"), 0, 0)
         == [Page(0, "https://cdn//p1.jpg?x")]
  {
    assert Plain("/p1.jpg");
    assert Plain("https://cdn/");
    assert Plain("?x");
    OneEntryOnePage("/p1.jpg", "https://cdn/", "?x");
    ExampleUrl();
  }

  lemma ExampleUrl()
    ensures "https://cdn/" + "/p1.jpg" + "?x" == "https://cdn//p1.jpg?x"
  {
  }

  /** One turn of the loop: the page of the first match, then the pages
      of the scan resumed after it. */
  lemma PagesStep(t: string, from: nat, index: nat, next: nat, nextIndex: nat)
    requires from <= |t| && Find(t, from).Some?
    requires next == Find(t, from).value.close + 1 && nextIndex == index + 1
    ensures IsMatch(t, Find(t, from).value) && next <= |t|
    ensures PagesFrom(t, from, index)
         == [Page(index, ImageUrl(t, Find(t, from).value))] + PagesFrom(t, next, nextIndex)
  {
    FindSound(t, from);
    PagesUnfold(t, from, index, next, nextIndex);
  }

  lemma PagesUnfold(t: string, from: nat, index: nat, next: nat, nextIndex: nat)
    requires from <= |t| && Find(t, from).Some? && IsMatch(t, Find(t, from).value) && next <= |t|
    requires next == Find(t, from).value.close + 1 && nextIndex == index + 1
    ensures PagesFrom(t, from, index)
         == [Page(index, ImageUrl(t, Find(t, from).value))] + PagesFrom(t, next, nextIndex)
  {
  }

  /** Moving the next item from the pieces still to come to those done. */
  lemma Regroup<T>(done: seq<T>, x: T, rest: seq<T>, todo: seq<T>, all: seq<T>)
    requires todo == [x] + rest && done + todo == all
    ensures (done + [x]) + rest == all
  {
    assert (done + [x]) + rest == done + ([x] + rest);
  }

  /** One turn of the loop: with the page of the match `find` returned
      appended, and the scan resumed after that match, the pages found so
      far followed by those still to come are again all the pages. */
  lemma Advance(t: string, pos: nat, i: nat, done: seq<Page>, all: seq<Page>,
                pos': nat, i': nat, done': seq<Page>)
    requires pos <= |t| && Find(t, pos).Some? && IsMatch(t, Find(t, pos).value)
    requires done + PagesFrom(t, pos, i) == all
    requires pos' == Find(t, pos).value.close + 1 && i' == i + 1
    requires done' == done + [Page(i, ImageUrl(t, Find(t, pos).value))]
    ensures pos' <= |t| && done' + PagesFrom(t, pos', i') == all
  {
    PagesStep(t, pos, i, pos', i');
    Regroup(done, Page(i, ImageUrl(t, Find(t, pos).value)), PagesFrom(t, pos', i'), PagesFrom(t, pos, i), all);
  }

  /** The `while (m.find())` loop of `pageListParse`. */
  method ScanPages(t: string) returns (pages: seq<Page>)
    ensures pages == PagesFrom(t, 0, 0)
  {
    ghost var all := PagesFrom(t, 0, 0);
    pages := [];
    var i: nat := 0;
    var pos: nat := 0;
    var found := Find(t, pos);
    while found.Some?
      invariant pos <= |t| && found == Find(t, pos)
      invariant i == |pages| && pages + PagesFrom(t, pos, i) == all
      decreases |t| - pos
    {
      var m := found.value;
      FindSound(t, pos);
      ghost var pos0, i0, pages0 := pos, i, pages;
      pages := pages + [Page(i, ImageUrl(t, m))];
      i := i + 1;
      pos := m.close + 1;
      Advance(t, pos0, i0, pages0, all, pos, i, pages);
      found := Find(t, pos);
    }
    assert pages + [] == pages;
  }

  /** `pageListParse(response)` on the response body: the exception of
      `substring` when a marker is missing, otherwise the pages of the
      slice between the markers. */
  method PageListParse(html: string) returns (r: Result<seq<Page>, PageError>)
    ensures SliceBounds(html).None? <==> r == Failure(IndexOutOfBounds)
    ensures r.Success? ==>
              r.value == PagesFrom(html[SliceBounds(html).value.0..SliceBounds(html).value.1], 0, 0)
  {
    var bounds := SliceBounds(html);
    if bounds.None? {
      return Failure(IndexOutOfBounds);
    }
    var pages := ScanPages(html[bounds.value.0..bounds.value.1]);
    return Success(pages);
  }
}
