/** Chapter rows and chapter numbers (Readmanga.kt, `chapterFromElement` and
    `prepareNewChapter`). The three regular expressions of
    `prepareNewChapter` are written out as matchers over the name, each
    beside a predicate that states the expression's shape with explicit
    group boundaries. */
module Chapters {
  import opened Wrappers
  import opened Text

  /** The "new" badge the site appends to the anchor text. */
  const NewMarker := " новое"
  /** The query that skips the site's age gate. */
  const MatureSuffix := "?mature=1"
  const ExtraWord := "Экстра"
  const SingleWord := "Сингл"
  /** The framework's initial `chapter_number`. */
  const UnsetNumber := -1
  /** The number given to extra chapters. */
  const ExtraNumber := -2

  // ---------------------------------------------------------------------
  // Row text
  // ---------------------------------------------------------------------

  /** The chapter name: the anchor text with `replace(" новое", "")`. */
  function ChapterName(anchorText: string): (r: string)
    ensures |r| <= |anchorText|
  {
    Replace(anchorText, NewMarker, "")
  }

  /** The upload date: the parsed second cell, or 0 when the row has none. */
  function UploadDate(dateCell: Option<string>, parseDate: string -> int): (d: int)
    ensures dateCell.None? ==> d == 0
    ensures dateCell.Some? ==> d == parseDate(dateCell.value)
  {
    match dateCell
    case None => 0
    case Some(text) => parseDate(text)
  }

  /** The badge is removed in one pass, so a badge that a removal brings
      together from two pieces survives, and a second pass removes it. */
  lemma ChapterNameNotIdempotent()
    ensures ChapterName(" нов новоеое") == " новое"
    ensures ChapterName(ChapterName(" нов новоеое")) == ""
  {
    var s := " нов новоеое";
    MismatchAt(s, NewMarker, 0, 4);
    MismatchAt(s, NewMarker, 1, 0);
    MismatchAt(s, NewMarker, 2, 0);
    MismatchAt(s, NewMarker, 3, 0);
    assert s[4..10] == NewMarker;
    ReplaceFirst(s, NewMarker, "", 0, 4);
    ReplaceAbsent(s, NewMarker, "", 10);
    assert s[..4] + s[10..] == " новое";
    BadgeAloneRemoved();
  }

  /** A name that is only the badge becomes empty. */
  lemma BadgeAloneRemoved()
    ensures ChapterName(NewMarker) == ""
  {
    var t := NewMarker;
    assert t[0..6] == NewMarker;
    ReplaceFirst(t, NewMarker, "", 0, 0);
    ReplaceAbsent(t, NewMarker, "", 6);
  }

  // ---------------------------------------------------------------------
  // The three name patterns
  // ---------------------------------------------------------------------

  /** The end of the maximal run of ASCII digits that starts at `i`. */
  function DigitRunEnd(s: string, i: nat): (j: nat)
    requires i <= |s|
    ensures i <= j <= |s|
    ensures forall k :: i <= k < j ==> IsDigit(s[k])
    ensures j == |s| || !IsDigit(s[j])
    decreases |s| - i
  {
    if i == |s| || !IsDigit(s[i]) then i else DigitRunEnd(s, i + 1)
  }

  /** A non-empty run of digits fills `s[lo..hi]`. */
  ghost predicate DigitsBetween(s: string, lo: int, hi: int)
  {
    0 <= lo < hi <= |s| && forall k :: lo <= k < hi ==> IsDigit(s[k])
  }

  /** `\s([0-9]+)(\s-\s)([0-9]+)\s*` matches at `i` with group 1 `s[i+1..j]`
      and group 3 `s[j+3..k]` (the trailing `\s*` always matches). */
  ghost predicate BasicShape(s: string, i: int, j: int, k: int)
  {
    0 <= i < |s| && IsSpace(s[i]) && DigitsBetween(s, i + 1, j) &&
    j + 2 < |s| && IsSpace(s[j]) && s[j + 1] == '-' && IsSpace(s[j + 2]) &&
    DigitsBetween(s, j + 3, k)
  }

  /** `\s([0-9]+\sЭкстра)\s*` matches at `i`, its digits being `s[i+1..j]`. */
  ghost predicate ExtraShape(s: string, i: int, j: int)
  {
    0 <= i < |s| && IsSpace(s[i]) && DigitsBetween(s, i + 1, j) &&
    j < |s| && IsSpace(s[j]) && OccursAt(s, ExtraWord, j + 1)
  }

  /** `\sСингл\s*` matches at `i`. */
  predicate SingleAt(s: string, i: int)
  {
    0 <= i < |s| && IsSpace(s[i]) && OccursAt(s, SingleWord, i + 1)
  }

  datatype Pattern = Basic | Extra | Single

  /** Whether the pattern matches at `i`. Each digit run is taken whole:
      the regex engine cannot end `[0-9]+` early, since the next item needs
      a space, so only the maximal run can match. */
  predicate MatchesAt(p: Pattern, s: string, i: int)
  {
    0 <= i < |s| && IsSpace(s[i]) &&
    match p
    case Basic =>
      var j := DigitRunEnd(s, i + 1);
      i + 1 < j && j + 3 < |s| && IsSpace(s[j]) && s[j + 1] == '-' && IsSpace(s[j + 2]) && IsDigit(s[j + 3])
    case Extra =>
      var j := DigitRunEnd(s, i + 1);
      i + 1 < j && j < |s| && IsSpace(s[j]) && OccursAt(s, ExtraWord, j + 1)
    case Single =>
      OccursAt(s, SingleWord, i + 1)
  }

  /** Group 3 of a `basic` match at `i`, as the engine captures it: the
      whole digit run after `\s-\s`. */
  function Group3(s: string, i: nat): string
    requires MatchesAt(Basic, s, i)
  {
    var j := DigitRunEnd(s, i + 1);
    s[j + 3..DigitRunEnd(s, j + 3)]
  }

  /** `Regex.find`: the leftmost match at or after `from`. */
  function FindMatch(p: Pattern, s: string, from: nat): (r: Option<nat>)
    requires from <= |s|
    ensures r.Some? ==> from <= r.value < |s| && MatchesAt(p, s, r.value)
    ensures forall k :: from <= k && (r.None? || k < r.value) ==> !MatchesAt(p, s, k)
    decreases |s| - from
  {
    if from == |s| then None
    else if MatchesAt(p, s, from) then Some(from)
    else FindMatch(p, s, from + 1)
  }

  /** A digit run that is followed by a non-digit ends where `DigitRunEnd` says. */
  lemma RunEndIs(s: string, lo: int, hi: int)
    requires DigitsBetween(s, lo, hi) && (hi == |s| || !IsDigit(s[hi]))
    ensures DigitRunEnd(s, lo) == hi
  {
  }

  /** The matcher for `basic` agrees with the regex: it matches at `i`
      exactly when some choice of groups does; group 1 can only be the
      whole first digit run, and the captured group 3 is the longest
      possible one. */
  lemma BasicMatchesShape(s: string, i: int)
    ensures MatchesAt(Basic, s, i) <==> exists j, k :: BasicShape(s, i, j, k)
    ensures forall j, k :: BasicShape(s, i, j, k) ==>
              j == DigitRunEnd(s, i + 1) && k <= DigitRunEnd(s, j + 3)
  {
    forall j, k | BasicShape(s, i, j, k)
      ensures j == DigitRunEnd(s, i + 1) && k <= DigitRunEnd(s, j + 3)
    {
      assert !IsDigit(s[j]);
      RunEndIs(s, i + 1, j);
    }
    if MatchesAt(Basic, s, i) {
      var j := DigitRunEnd(s, i + 1);
      assert BasicShape(s, i, j, DigitRunEnd(s, j + 3));
    }
  }

  /** The matcher for `extra` agrees with the regex. */
  lemma ExtraMatchesShape(s: string, i: int)
    ensures MatchesAt(Extra, s, i) <==> exists j :: ExtraShape(s, i, j)
  {
    forall j | ExtraShape(s, i, j) ensures MatchesAt(Extra, s, i) {
      assert !IsDigit(s[j]);
      RunEndIs(s, i + 1, j);
    }
    if MatchesAt(Extra, s, i) {
      assert ExtraShape(s, i, DigitRunEnd(s, i + 1));
    }
  }

  // ---------------------------------------------------------------------
  // The chapter number
  // ---------------------------------------------------------------------

  /** The number `prepareNewChapter` assigns to a chapter of this name, or
      None when it leaves the number alone. */
  function ChapterNumberFor(name: string): Option<int>
  {
    match FindMatch(Basic, name, 0)
    case Some(i) => Some(DigitsValue(Group3(name, i)))
    case None =>
      if FindMatch(Extra, name, 0).Some? then Some(ExtraNumber)
      else if FindMatch(Single, name, 0).Some? then Some(1)
      else None
  }

  /** `find` returns the match that no other match precedes. */
  lemma FindLeftmost(p: Pattern, s: string, i: nat)
    requires MatchesAt(p, s, i)
    requires forall i' :: 0 <= i' < i ==> !MatchesAt(p, s, i')
    ensures FindMatch(p, s, 0) == Some(i)
  {
  }

  /** When `basic` occurs, the number is the value of the third group of
      its leftmost match, taken whole. */
  lemma BasicGivesThirdGroup(s: string, i: nat, j: nat, k: nat)
    requires BasicShape(s, i, j, k)
    requires k == |s| || !IsDigit(s[k])
    requires forall i', j', k' :: 0 <= i' < i ==> !BasicShape(s, i', j', k')
    ensures ChapterNumberFor(s) == Some(DigitsValue(s[j + 3..k]))
  {
    BasicMatchesShape(s, i);
    forall i' | 0 <= i' < i ensures !MatchesAt(Basic, s, i') {
      BasicMatchesShape(s, i');
    }
    FindLeftmost(Basic, s, i);
    RunEndIs(s, j + 3, k);
    assert Group3(s, i) == s[j + 3..k];
  }

  /** Without `basic`, an `extra` match gives -2, whatever digits it holds. */
  lemma ExtraGivesSentinel(s: string, i: nat, j: nat)
    requires ExtraShape(s, i, j)
    requires forall i', j', k' :: !BasicShape(s, i', j', k')
    ensures ChapterNumberFor(s) == Some(ExtraNumber)
  {
    forall i' | 0 <= i' ensures !MatchesAt(Basic, s, i') {
      BasicMatchesShape(s, i');
    }
    ExtraMatchesShape(s, i);
    assert FindMatch(Basic, s, 0).None?;
  }

  /** With neither `basic` nor `extra`, a `single` match gives 1. */
  lemma SingleGivesOne(s: string, i: nat)
    requires SingleAt(s, i)
    requires forall i', j', k' :: !BasicShape(s, i', j', k')
    requires forall i', j' :: !ExtraShape(s, i', j')
    ensures ChapterNumberFor(s) == Some(1)
  {
    forall i' | 0 <= i' ensures !MatchesAt(Basic, s, i') && !MatchesAt(Extra, s, i') {
      BasicMatchesShape(s, i');
      ExtraMatchesShape(s, i');
    }
    assert MatchesAt(Single, s, i);
    assert FindMatch(Basic, s, 0).None?;
    assert FindMatch(Extra, s, 0).None?;
  }

  /** When no pattern matches, the number is left as it was. */
  lemma NoPatternLeavesNumber(s: string)
    requires forall i', j', k' :: !BasicShape(s, i', j', k')
    requires forall i', j' :: !ExtraShape(s, i', j')
    requires forall i' :: !SingleAt(s, i')
    ensures ChapterNumberFor(s) == None
  {
    forall i' | 0 <= i' ensures !MatchesAt(Basic, s, i') && !MatchesAt(Extra, s, i') {
      BasicMatchesShape(s, i');
      ExtraMatchesShape(s, i');
    }
    forall i' | 0 <= i' ensures !MatchesAt(Single, s, i') {
      assert !SingleAt(s, i');
    }
  }

  // ---------------------------------------------------------------------
  // The chapter object
  // ---------------------------------------------------------------------

  /** The `SChapter` fields the adapter sets. */
  class Chapter {
    var url: string
    var name: string
    var dateUpload: int
    var chapterNumber: int

    /** `chapterFromElement`, given the row's first anchor's `href` and text
        and the text of its second cell (None when the row has no such
        cell); `parseDate` stands for the `dd/MM/yy` date parser. */
    constructor FromRow(href: string, anchorText: string, dateCell: Option<string>, parseDate: string -> int)
      ensures url == href + MatureSuffix
      ensures name == ChapterName(anchorText)
      ensures dateUpload == UploadDate(dateCell, parseDate)
      ensures chapterNumber == UnsetNumber
    {
      url := href + MatureSuffix;
      name := ChapterName(anchorText);
      dateUpload := UploadDate(dateCell, parseDate);
      chapterNumber := UnsetNumber;
    }
  }

  /** `prepareNewChapter(chapter, manga)`: sets the chapter number from the
      name by the first pattern that matches (the manga is not consulted). */
  method PrepareNewChapter(chapter: Chapter)
    modifies chapter
    ensures chapter.url == old(chapter.url) && chapter.name == old(chapter.name)
    ensures chapter.dateUpload == old(chapter.dateUpload)
    ensures chapter.chapterNumber ==
              match ChapterNumberFor(chapter.name)
              case Some(n) => n
              case None => old(chapter.chapterNumber)
  {
    var name := chapter.name;
    var basic := FindMatch(Basic, name, 0);
    if basic.Some? {
      chapter.chapterNumber := DigitsValue(Group3(name, basic.value));
    } else if FindMatch(Extra, name, 0).Some? {
      chapter.chapterNumber := ExtraNumber;
    } else if FindMatch(Single, name, 0).Some? {
      chapter.chapterNumber := 1;
    }
  }

  // ---------------------------------------------------------------------
  // Worked examples
  // ---------------------------------------------------------------------

  /** A name followed by the badge loses it, provided the badge does not
      already start inside the name. */
  lemma TrailingBadgeRemoved(name: string)
    requires forall j :: 0 <= j < |name| ==> !OccursAt(name + NewMarker, NewMarker, j)
    ensures ChapterName(name + NewMarker) == name
  {
    var s, k := name + NewMarker, |name|;
    assert s[k..k + 6] == NewMarker;
    ReplaceFirst(s, NewMarker, "", 0, k);
    ReplaceAbsent(s, NewMarker, "", k + 6);
    assert s[..k] == name;
  }

  /** A chapter row's name loses its "new" badge. */
  lemma NewBadgeExample()
    ensures ChapterName("Глава 12 - 34 новое") == "Глава 12 - 34"
  {
    var name := "Глава 12 - 34";
    assert name + NewMarker == "Глава 12 - 34 новое";
    forall j | 0 <= j < |name| ensures !OccursAt(name + NewMarker, NewMarker, j) {
      var s := name + NewMarker;
      if s[j] == ' ' { MismatchAt(s, NewMarker, j, 1); } else { MismatchAt(s, NewMarker, j, 0); }
    }
    TrailingBadgeRemoved(name);
  }

  /** A volume-chapter pair is numbered by the chapter (34), not the
      volume (12). */
  lemma VolumeChapterExample()
    ensures ChapterNumberFor("Глава 12 - 34") == Some(34)
  {
    var n := "Глава 12 - 34";
    assert BasicShape(n, 5, 8, 13);
    assert n[11..13] == "34";
    assert DigitsValue("34") == 34;
    forall i', j', k' | 0 <= i' < 5 ensures !BasicShape(n, i', j', k') {
      assert !IsSpace(n[i']);
    }
    BasicGivesThirdGroup(n, 5, 8, 13);
  }

  /** A name without `-` has no volume-chapter pair. */
  lemma NoDashNoBasic(s: string)
    requires '-' !in s
    ensures forall i, j, k :: !BasicShape(s, i, j, k)
  {
    forall i: int, j: int, k: int ensures !BasicShape(s, i, j, k) {
      if 0 <= j + 1 < |s| {
        assert s[j + 1] in s;
      }
    }
  }

  /** An extra chapter after a space is numbered -2. */
  lemma ExtraExample()
    ensures ChapterNumberFor(" 5 Экстра") == Some(ExtraNumber)
  {
    var s := " 5 Экстра";
    NoDashNoBasic(s);
    assert s[3..9] == ExtraWord;
    assert ExtraShape(s, 0, 2);
    ExtraGivesSentinel(s, 0, 2);
  }

  /** `extra` needs a space before the digits, so a name that starts with
      them keeps its number. */
  lemma ExtraAtStartExample()
    ensures ChapterNumberFor("5 Экстра") == None
  {
    var s := "5 Экстра";
    NoDashNoBasic(s);
    forall i | 0 <= i < |s| && i != 1 ensures !IsSpace(s[i]) {
    }
    forall i: int, j: int ensures !ExtraShape(s, i, j) {
      if 0 <= i < |s| && IsSpace(s[i]) {
        assert !IsDigit(s[2]);
      }
    }
    forall i: int ensures !SingleAt(s, i) {
      if 0 <= i < |s| && IsSpace(s[i]) {
        MismatchAt(s, SingleWord, 2, 0);
      }
    }
    NoPatternLeavesNumber(s);
  }

  /** A one-shot is numbered 1. */
  lemma SingleExample()
    ensures ChapterNumberFor(" Сингл ") == Some(1)
  {
    var s := " Сингл ";
    NoDashNoBasic(s);
    forall i | 0 < i < 6 ensures !IsSpace(s[i]) {
    }
    forall i: int, j: int ensures !ExtraShape(s, i, j) {
      if i == 0 {
        assert !IsDigit(s[1]);
      }
    }
    assert s[1..6] == SingleWord;
    assert SingleAt(s, 0);
    SingleGivesOne(s, 0);
  }
}
