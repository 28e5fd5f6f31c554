# Readmanga adapter: a Dafny model

This project models the Readmanga source adapter (`Readmanga.kt`) of a
manga reader's extension collection: the Russian site `http://readmanga.me`
seen through the adapter's requests and parsers. It covers:

- the request URLs for the two catalog listings (sorted by rating and by
  update, 70 entries per page, with the offset computed in Kotlin `Int`);
- the genre search, which sends every filter of the genre list as one URL term;
- the genre list itself;
- the publication status read from the detail page's HTML;
- the genre-text clean-up;
- the chapter row (URL with the age-gate query, name without the "new" badge,
  upload date);
- the chapter number that `prepareNewChapter` derives from the chapter name
  by three regular expressions with strict precedence;
- `pageListParse`, which cuts the page-array literal out of the reader
  page's script, finds each `'…','…',"…"` triple with a lazy regular
  expression, strips the quotes, splits on commas and joins part 1, part 0
  and part 2 into the image URL.

Modules:

- `Wrappers`: Option and Result.
- `Text`: the JVM and Kotlin string operations the adapter calls
  (`indexOf`, `contains`, `String.replace`, `split`, `joinToString`),
  the `java.util.regex` character classes, and decimal numerals.
- `Requests`: the listing and search URLs and the genre filter list.
- `Details`: `parseStatus` and `mangaDetailsParse`.
- `Chapters`: `chapterFromElement` and `prepareNewChapter`. The
  `SChapter` object is a class whose fields `prepareNewChapter` updates.
- `Pages`: `pageListParse`. The `while (m.find())` loop is a method
  proved against the function `PagesFrom`. The regex engine is modelled by
  the lexicographic order in which a backtracking matcher tries a lazy
  match, plus lemmas showing that the scanner returns exactly the first
  match in that order.

The model follows the code where the behaviour is easy to misread:

- The genre list has 41 entries.
- The extra-chapter pattern needs whitespace before the digits, so a name
  that starts with `5 Экстра` is not numbered -2 (`Chapters.ExtraAtStartExample`).
- The page pattern needs a double-quoted third field. An array entry such as
  `'/p1.jpg','https://cdn/','?x'` yields no page
  (`Pages.SingleQuotedEntryNoPage`). The entry `'/p1.jpg','https://cdn/',"?x"`
  yields `https://cdn//p1.jpg?x` (`Pages.OneEntryExample`).
- When a marker is missing, `substring` throws. The model returns
  `Failure(IndexOutOfBounds)` for that case rather than requiring both
  markers to be present.

## Model

| member | source | states |
|---|---|---|
| Text.IndexOf | src/ru/readmanga/src/eu/kanade/tachiyomi/extension/ru/readmanga/Readmanga.kt:124-125 | the result is -1 or an occurrence at or after the start index, and no occurrence lies between the start index and the result |
| Text.Contains | src/ru/readmanga/src/eu/kanade/tachiyomi/extension/ru/readmanga/Readmanga.kt:81-88 | true exactly when the pattern occurs somewhere in the text |
| Text.Replace | src/ru/readmanga/src/eu/kanade/tachiyomi/extension/ru/readmanga/Readmanga.kt:74 | `String.replace`: with a non-empty target and a replacement no longer than it, the result is never longer than the input; its left-to-right meaning is stated by `Text.ReplaceByIndexOf` |
| Text.ReplaceByIndexOf | src/ru/readmanga/src/eu/kanade/tachiyomi/extension/ru/readmanga/Readmanga.kt:97 | one replace pass copies the text up to the next occurrence, emits the replacement and resumes after the occurrence; with no occurrence left it copies the rest |
| Text.Split | src/ru/readmanga/src/eu/kanade/tachiyomi/extension/ru/readmanga/Readmanga.kt:135 | Kotlin `split` on one character always yields at least one piece (empty pieces kept); with `Text.Join` it round-trips in `Text.SplitJoin` |
| Text.Join | src/ru/readmanga/src/eu/kanade/tachiyomi/extension/ru/readmanga/Readmanga.kt:56 | `joinToString`; its meaning is the round trip with `Text.Split` stated in `Text.SplitJoin` |
| Text.SplitJoin | src/ru/readmanga/src/eu/kanade/tachiyomi/extension/ru/readmanga/Readmanga.kt:56 | joining pieces that contain no separator and splitting again gives the pieces back |
| Text.IntToDecimal | src/ru/readmanga/src/eu/kanade/tachiyomi/extension/ru/readmanga/Readmanga.kt:31 | the rendering of an integer is a decimal numeral, with a leading `-` exactly when the integer is negative |
| Text.DigitsValue | src/ru/readmanga/src/eu/kanade/tachiyomi/extension/ru/readmanga/Readmanga.kt:112 | the number a digit string denotes, as `toFloat` reads it; `Text.NatToDecimalValue` shows it inverts the decimal rendering |
| Text.NatToDecimalValue | src/ru/readmanga/src/eu/kanade/tachiyomi/extension/ru/readmanga/Readmanga.kt:31 | reading the decimal rendering of a number back gives the number |
| Requests.Wrap | src/ru/readmanga/src/eu/kanade/tachiyomi/extension/ru/readmanga/Readmanga.kt:31 | 32-bit wrap-around: the result is congruent to the input modulo 2^32 and equals it when the input fits |
| Requests.Offset | src/ru/readmanga/src/eu/kanade/tachiyomi/extension/ru/readmanga/Readmanga.kt:31 | the Kotlin `Int` value of `70 * (page - 1)`: congruent to the exact product modulo 2^32 (and, being an `Int`, uniquely fixed by that) |
| Requests.OffsetExact | src/ru/readmanga/src/eu/kanade/tachiyomi/extension/ru/readmanga/Readmanga.kt:31 | for pages 1 to 30678338 the offset `70 * (page - 1)` is exact and non-negative |
| Requests.OffsetWrapsAfterLastExactPage | src/ru/readmanga/src/eu/kanade/tachiyomi/extension/ru/readmanga/Readmanga.kt:31 | for page 30678339 the Int offset overflows to a negative number |
| Requests.ListingUrl | src/ru/readmanga/src/eu/kanade/tachiyomi/extension/ru/readmanga/Readmanga.kt:30-36 | a listing URL is the listing's prefix, then a decimal numeral, then `&max=70` |
| Requests.PopularMangaRequest | src/ru/readmanga/src/eu/kanade/tachiyomi/extension/ru/readmanga/Readmanga.kt:30-32 | the URL is `http://readmanga.me/list?sortType=rate&offset=`, a decimal numeral and `&max=70`; `Requests.ListingUrlSignedReadsBack` gives the numeral's value for every page, wrapped offsets included |
| Requests.LatestUpdatesRequest | src/ru/readmanga/src/eu/kanade/tachiyomi/extension/ru/readmanga/Readmanga.kt:34-36 | the URL is `http://readmanga.me/list?sortType=updated&offset=`, a decimal numeral and `&max=70`; `Requests.ListingUrlSignedReadsBack` gives the numeral's value for every page, wrapped offsets included |
| Requests.ListingUrlReadsBack | src/ru/readmanga/src/eu/kanade/tachiyomi/extension/ru/readmanga/Readmanga.kt:30-36 | a popular or latest listing URL is the base URL with `/list?sortType=rate` or `updated` and `&offset=`, then a decimal numeral whose value is 70 * (page - 1), then `&max=70` |
| Requests.ListingUrlSignedReadsBack | src/ru/readmanga/src/eu/kanade/tachiyomi/extension/ru/readmanga/Readmanga.kt:30-36 | for every `Int` page, the numeral between the prefix and `&max=70` is the Kotlin `Int` offset without leading zeros: its digits denote the offset when it is non-negative, and a `-` precedes the digits of its magnitude when the product has wrapped to a negative value |
| Requests.StateSuffix | src/ru/readmanga/src/eu/kanade/tachiyomi/extension/ru/readmanga/Readmanga.kt:56 | the state suffix never contains `&` |
| Requests.Terms | src/ru/readmanga/src/eu/kanade/tachiyomi/extension/ru/readmanga/Readmanga.kt:56 | one term per filter, in filter order, each the filter's id followed by its state suffix |
| Requests.SearchMangaRequest | src/ru/readmanga/src/eu/kanade/tachiyomi/extension/ru/readmanga/Readmanga.kt:55-58 | the URL starts with `/search?q=<query>&` and is only that when there are no filters; `Requests.SearchTermsReadBack` states the terms that follow |
| Requests.SearchTermsReadBack | src/ru/readmanga/src/eu/kanade/tachiyomi/extension/ru/readmanga/Readmanga.kt:55-58 | the search URL starts with `/search?q=<query>&`, and its remainder splits on `&` into exactly one term per filter, in order, ignored filters included |
| Requests.GetFilterList | src/ru/readmanga/src/eu/kanade/tachiyomi/extension/ru/readmanga/Readmanga.kt:154-196 | 41 genre filters, each in state Ignore with an id of the form `el_` followed by four digits |
| Requests.DefaultSearchSendsEveryGenre | src/ru/readmanga/src/eu/kanade/tachiyomi/extension/ru/readmanga/Readmanga.kt:56 | a search with the default filter list sends all 41 ids, each with a bare `=` |
| Details.ParseStatus | src/ru/readmanga/src/eu/kanade/tachiyomi/extension/ru/readmanga/Readmanga.kt:81-88 | LICENSED when the copyright heading occurs; otherwise COMPLETED when the one-shot title or "translation finished" occurs; otherwise ONGOING when "translation in progress" occurs; otherwise UNKNOWN. Each case is stated as an if-and-only-if |
| Details.CopyrightWins | src/ru/readmanga/src/eu/kanade/tachiyomi/extension/ru/readmanga/Readmanga.kt:83 | a text containing the copyright heading is LICENSED whatever else it holds |
| Details.NormalizeGenre | src/ru/readmanga/src/eu/kanade/tachiyomi/extension/ru/readmanga/Readmanga.kt:74 | the clean-up never lengthens the genre text; `Details.NormalizeGenreKeepsCleanText` and `Details.NormalizeGenreNotIdempotent` state what it changes |
| Details.NormalizeGenreKeepsCleanText | src/ru/readmanga/src/eu/kanade/tachiyomi/extension/ru/readmanga/Readmanga.kt:74 | genre text without a space before a comma is unchanged |
| Details.NormalizeGenreNotIdempotent | src/ru/readmanga/src/eu/kanade/tachiyomi/extension/ru/readmanga/Readmanga.kt:74 | one pass turns `a  ,b` into `a ,b`, and a second pass is needed to reach `a,b` |
| Details.MangaDetailsParse | src/ru/readmanga/src/eu/kanade/tachiyomi/extension/ru/readmanga/Readmanga.kt:69-79 | author, description and thumbnail are taken as extracted; the genre is the normalised genre text; the status is `ParseStatus` of the block's HTML, so it is LICENSED exactly when the copyright heading occurs |
| Chapters.UploadDate | src/ru/readmanga/src/eu/kanade/tachiyomi/extension/ru/readmanga/Readmanga.kt:98-100 | 0 when the row has no date cell, and the parsed date otherwise |
| Chapters.Chapter.FromRow | src/ru/readmanga/src/eu/kanade/tachiyomi/extension/ru/readmanga/Readmanga.kt:92-102 | the chapter URL is the href with `?mature=1` appended; the name is the anchor text without ` новое`; the number is still unset (-1) |
| Chapters.ChapterName | src/ru/readmanga/src/eu/kanade/tachiyomi/extension/ru/readmanga/Readmanga.kt:97 | removing the badge never lengthens the name; `Chapters.TrailingBadgeRemoved` and `Chapters.ChapterNameNotIdempotent` state what it removes |
| Chapters.ChapterNameNotIdempotent | src/ru/readmanga/src/eu/kanade/tachiyomi/extension/ru/readmanga/Readmanga.kt:97 | badge removal is a single pass: a badge formed by a removal survives it |
| Chapters.TrailingBadgeRemoved | src/ru/readmanga/src/eu/kanade/tachiyomi/extension/ru/readmanga/Readmanga.kt:97 | a name followed by ` новое` loses the badge, provided the badge does not already start inside the name |
| Chapters.NewBadgeExample | src/ru/readmanga/src/eu/kanade/tachiyomi/extension/ru/readmanga/Readmanga.kt:97 | `Глава 12 - 34 новое` becomes `Глава 12 - 34` |
| Chapters.DigitRunEnd | src/ru/readmanga/src/eu/kanade/tachiyomi/extension/ru/readmanga/Readmanga.kt:105 | the end of the maximal digit run starting at an index |
| Chapters.MatchesAt | src/ru/readmanga/src/eu/kanade/tachiyomi/extension/ru/readmanga/Readmanga.kt:105-107 | whether `basic`, `extra` or `single` matches at a position; `Chapters.BasicMatchesShape` and `Chapters.ExtraMatchesShape` state it against the explicit group boundaries of each expression |
| Chapters.Group3 | src/ru/readmanga/src/eu/kanade/tachiyomi/extension/ru/readmanga/Readmanga.kt:111 | group 3 of the `basic` match at a position; `Chapters.BasicGivesThirdGroup` shows it is the whole digit run after ` - ` |
| Chapters.FindMatch | src/ru/readmanga/src/eu/kanade/tachiyomi/extension/ru/readmanga/Readmanga.kt:109-110 | the leftmost position where the pattern matches, and no match before it; None only when no position from the start matches |
| Chapters.BasicMatchesShape | src/ru/readmanga/src/eu/kanade/tachiyomi/extension/ru/readmanga/Readmanga.kt:105 | the matcher for `\s([0-9]+)(\s-\s)([0-9]+)\s*` holds at a position exactly when some choice of group boundaries matches there; group 1 is the whole first digit run, and no group 3 is longer than the captured one |
| Chapters.ExtraMatchesShape | src/ru/readmanga/src/eu/kanade/tachiyomi/extension/ru/readmanga/Readmanga.kt:106 | the matcher for `\s([0-9]+\sЭкстра)\s*` holds exactly when some choice of the digit run matches |
| Chapters.FindLeftmost | src/ru/readmanga/src/eu/kanade/tachiyomi/extension/ru/readmanga/Readmanga.kt:110 | a match with none before it is the one `find` returns |
| Chapters.ChapterNumberFor | src/ru/readmanga/src/eu/kanade/tachiyomi/extension/ru/readmanga/Readmanga.kt:104-120 | the number the three patterns assign, by precedence; its meaning is stated by `Chapters.BasicGivesThirdGroup`, `Chapters.ExtraGivesSentinel`, `Chapters.SingleGivesOne` and `Chapters.NoPatternLeavesNumber` |
| Chapters.BasicGivesThirdGroup | src/ru/readmanga/src/eu/kanade/tachiyomi/extension/ru/readmanga/Readmanga.kt:109-113 | when the volume-chapter pattern occurs, the number is the value of group 3 of its leftmost match |
| Chapters.ExtraGivesSentinel | src/ru/readmanga/src/eu/kanade/tachiyomi/extension/ru/readmanga/Readmanga.kt:115-116 | without a volume-chapter match, an extra match gives -2 |
| Chapters.SingleGivesOne | src/ru/readmanga/src/eu/kanade/tachiyomi/extension/ru/readmanga/Readmanga.kt:117-118 | with neither of the first two patterns, a one-shot match gives 1 |
| Chapters.NoPatternLeavesNumber | src/ru/readmanga/src/eu/kanade/tachiyomi/extension/ru/readmanga/Readmanga.kt:108-119 | when no pattern matches, no number is assigned |
| Chapters.PrepareNewChapter | src/ru/readmanga/src/eu/kanade/tachiyomi/extension/ru/readmanga/Readmanga.kt:104-120 | the chapter number becomes the number of the first matching pattern, or stays as it was; url, name and date are unchanged |
| Chapters.VolumeChapterExample | src/ru/readmanga/src/eu/kanade/tachiyomi/extension/ru/readmanga/Readmanga.kt:105-113 | `Глава 12 - 34` is numbered 34 (the chapter, not the volume) |
| Chapters.NoDashNoBasic | src/ru/readmanga/src/eu/kanade/tachiyomi/extension/ru/readmanga/Readmanga.kt:105 | a name without `-` has no volume-chapter match |
| Chapters.ExtraExample | src/ru/readmanga/src/eu/kanade/tachiyomi/extension/ru/readmanga/Readmanga.kt:115-116 | ` 5 Экстра` is numbered -2 |
| Chapters.ExtraAtStartExample | src/ru/readmanga/src/eu/kanade/tachiyomi/extension/ru/readmanga/Readmanga.kt:106 | `5 Экстра` has no leading whitespace and gets no number |
| Chapters.SingleExample | src/ru/readmanga/src/eu/kanade/tachiyomi/extension/ru/readmanga/Readmanga.kt:117-118 | ` Сингл ` is numbered 1 |
| Pages.SliceBounds | src/ru/readmanga/src/eu/kanade/tachiyomi/extension/ru/readmanga/Readmanga.kt:124-126 | the bounds are the first begin marker and the first end marker at or after it. The result is None exactly when the begin marker is missing or no end marker follows it, which are the cases where `substring` throws |
| Pages.MatchAt | src/ru/readmanga/src/eu/kanade/tachiyomi/extension/ru/readmanga/Readmanga.kt:128 | the engine's attempt at one start position; `Pages.MatchAtSound` and `Pages.MatchAtFirst` state that it finds a match exactly when one starts there, and the first in engine order |
| Pages.MatchAtSound | src/ru/readmanga/src/eu/kanade/tachiyomi/extension/ru/readmanga/Readmanga.kt:128 | a match found at a position is a match of `'.+?','.+?',".+?"` |
| Pages.MatchAtFirst | src/ru/readmanga/src/eu/kanade/tachiyomi/extension/ru/readmanga/Readmanga.kt:128 | at a position where the pattern matches, the match found comes first in the lazy engine order |
| Pages.Find | src/ru/readmanga/src/eu/kanade/tachiyomi/extension/ru/readmanga/Readmanga.kt:134 | a found match starts at or after the search position and ends inside the text |
| Pages.FindSound | src/ru/readmanga/src/eu/kanade/tachiyomi/extension/ru/readmanga/Readmanga.kt:134 | what `find` returns is a match of the pattern |
| Pages.FindFirst | src/ru/readmanga/src/eu/kanade/tachiyomi/extension/ru/readmanga/Readmanga.kt:134 | if any match starts at or after the search position, `find` succeeds and returns one that, in engine order, precedes or equals it |
| Pages.Matches | src/ru/readmanga/src/eu/kanade/tachiyomi/extension/ru/readmanga/Readmanga.kt:134 | the successive results of `find`, each search resuming after the previous match; `Pages.MatchesInOrder` and `Pages.MatchesStep` state their order |
| Pages.MatchesInOrder | src/ru/readmanga/src/eu/kanade/tachiyomi/extension/ru/readmanga/Readmanga.kt:134 | every match of the scan is a match at or after the start, and each starts after the previous one ends |
| Pages.MatchesStep | src/ru/readmanga/src/eu/kanade/tachiyomi/extension/ru/readmanga/Readmanga.kt:134 | the scan is the first match followed by the scan resumed after it |
| Pages.MatchText | src/ru/readmanga/src/eu/kanade/tachiyomi/extension/ru/readmanga/Readmanga.kt:135 | `m.group()`, the text of a match from its opening quote to its closing double quote; `Pages.StrippedMatch` states its stripped layout |
| Pages.StripQuotes | src/ru/readmanga/src/eu/kanade/tachiyomi/extension/ru/readmanga/Readmanga.kt:135 | removing quotes never lengthens the text; `Pages.StripQuotesChars` states which characters remain |
| Pages.StripQuotesChars | src/ru/readmanga/src/eu/kanade/tachiyomi/extension/ru/readmanga/Readmanga.kt:135 | the result holds exactly the non-quote characters of the input |
| Pages.StripQuotesAppend | src/ru/readmanga/src/eu/kanade/tachiyomi/extension/ru/readmanga/Readmanga.kt:135 | quote stripping distributes over concatenation |
| Pages.StrippedMatch | src/ru/readmanga/src/eu/kanade/tachiyomi/extension/ru/readmanga/Readmanga.kt:135 | a stripped match reads field 1, a comma, field 2, a comma and field 3, each stripped |
| Pages.StrippedMatchParts | src/ru/readmanga/src/eu/kanade/tachiyomi/extension/ru/readmanga/Readmanga.kt:135 | the comma-split parts of a stripped match are those of each field in turn, so there are at least three and `urlParts[2]` exists |
| Pages.ImageUrl | src/ru/readmanga/src/eu/kanade/tachiyomi/extension/ru/readmanga/Readmanga.kt:135-136 | `urlParts[1] + urlParts[0] + urlParts[2]`; `Pages.ImageUrlHasNoQuotes` and `Pages.ImageUrlWithoutCommas` state what it holds |
| Pages.ImageUrlHasNoQuotes | src/ru/readmanga/src/eu/kanade/tachiyomi/extension/ru/readmanga/Readmanga.kt:135-136 | an image URL holds no quote character |
| Pages.ImageUrlWithoutCommas | src/ru/readmanga/src/eu/kanade/tachiyomi/extension/ru/readmanga/Readmanga.kt:136 | when no field holds a comma, the URL is field 2, then field 1, then field 3, each without quotes |
| Pages.PagesFrom | src/ru/readmanga/src/eu/kanade/tachiyomi/extension/ru/readmanga/Readmanga.kt:131-138 | the pages the loop adds from a position on; `Pages.PagesFollowMatches` and `Pages.PagesStep` state them in terms of the matches |
| Pages.PagesFollowMatches | src/ru/readmanga/src/eu/kanade/tachiyomi/extension/ru/readmanga/Readmanga.kt:133-137 | one page per match in `find` order, numbered consecutively from the start index, page k carrying the URL built from match k |
| Pages.PagesHaveNoQuotes | src/ru/readmanga/src/eu/kanade/tachiyomi/extension/ru/readmanga/Readmanga.kt:135-136 | no page's image URL holds a quote character |
| Pages.PagesNeedDoubleQuote | src/ru/readmanga/src/eu/kanade/tachiyomi/extension/ru/readmanga/Readmanga.kt:128 | a slice that yields a page contains a double quote |
| Pages.OneEntryOnePage | src/ru/readmanga/src/eu/kanade/tachiyomi/extension/ru/readmanga/Readmanga.kt:122-139 | for one array entry with plain fields, the markers delimit it and it yields exactly one page, with index 0 and URL field 2 + field 1 + field 3 |
| Pages.SingleQuotedEntryNoPage | src/ru/readmanga/src/eu/kanade/tachiyomi/extension/ru/readmanga/Readmanga.kt:122-139 | for an entry whose third field is single-quoted, the markers are found but no page is produced |
| Pages.OneEntryExample | src/ru/readmanga/src/eu/kanade/tachiyomi/extension/ru/readmanga/Readmanga.kt:122-139 | the entry `'/p1.jpg','https://cdn/',"?x"` yields the page `https://cdn//p1.jpg?x` |
| Pages.PagesStep | src/ru/readmanga/src/eu/kanade/tachiyomi/extension/ru/readmanga/Readmanga.kt:133-137 | one turn of the loop: the page of the first match found, numbered with the current index, then the pages of the scan resumed after that match with the next index |
| Pages.ScanPages | src/ru/readmanga/src/eu/kanade/tachiyomi/extension/ru/readmanga/Readmanga.kt:131-138 | the `while (m.find())` loop returns the pages of `PagesFrom`: one per successive match, numbered from 0 |
| Pages.PageListParse | src/ru/readmanga/src/eu/kanade/tachiyomi/extension/ru/readmanga/Readmanga.kt:122-139 | the result is a failure exactly when `substring` would throw; otherwise it is the pages of the slice between the markers |

## Left out

- HTTP: `GET`, headers and OkHttp `Request` objects are not modelled; each request is its URL string.
- HTML: jsoup selection (`div.leftContent`, `span.elem_author`, `td:eq(1)`, `h3 > a` and the others) is not modelled. The parsers take the extracted strings as parameters.
- Catalog entries: `popularMangaFromElement`, `latestUpdatesFromElement`, `searchMangaFromElement` and the selector constants only copy attributes chosen by the selectors, which are not modelled.
- `setUrlWithoutDomain` depends on the framework's URL handling, which is not part of this model. The chapter URL is kept as the href with `?mature=1` appended.
- Chapters.UploadDate: `SimpleDateFormat("dd/MM/yy").parse` is a parameter `parseDate`, so its format and its exception on a malformed date are not modelled.
- Chapters.PrepareNewChapter: `chapter_number` is a Kotlin `Float`. The model keeps the exact integer value of the digit string; float rounding of very long digit runs is not modelled. The `manga` parameter is unused and omitted.
- Pages.PageListParse: `response.body()!!` (a missing body) and the response's character decoding are not modelled; the input is the body text. Page indices are unbounded, so `i++` overflowing Kotlin `Int` is not modelled. A page is its index and image URL: the page-URL argument of `Page(i++, "", …)` is always the empty string and is not represented.
- `pageListParse(Document)` only throws "Not used", and `imageUrlParse` returns the empty string. Neither is reached on this source's path, and neither is modelled.
- Requests.SearchMangaRequest: `filterIsInstance<Genre>()` is modelled by taking a sequence of genre filters, so non-genre filters are not represented. The query is inserted without URL encoding, as in the source.
- Characters are Unicode scalar values, not UTF-16 code units. Indices agree with the JVM's only for text in the Basic Multilingual Plane.
