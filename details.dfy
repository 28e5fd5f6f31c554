/** The manga detail page (Readmanga.kt, `mangaDetailsParse` and
    `parseStatus`): what the adapter does with the strings it has taken out
    of the page's main content block. */
module Details {
  import opened Wrappers
  import opened Text

  /** `SManga.UNKNOWN`, `ONGOING`, `COMPLETED`, `LICENSED`. */
  datatype Status = Unknown | Ongoing | Completed | Licensed

  /** The heading of a work withdrawn for copyright reasons. */
  const CopyrightMarker := "<h3>Запрещена публикация произведения по копирайту</h3>"
  /** The title heading of a one-shot ("Сингл"). */
  const SingleMarker := "<h1 class=\"names\"> Сингл"
  /** "Translation: finished". */
  const TranslationDoneMarker := "<b>Перевод:</b> завершен"
  /** "Translation: in progress". */
  const TranslationOngoingMarker := "<b>Перевод:</b> продолжается"

  /** `parseStatus(html)`: four substring tests with strict precedence. */
  function ParseStatus(html: string): (r: Status)
    ensures r == Licensed <==> Occurs(html, CopyrightMarker)
    ensures r == Completed <==>
              !Occurs(html, CopyrightMarker) &&
              (Occurs(html, SingleMarker) || Occurs(html, TranslationDoneMarker))
    ensures r == Ongoing <==>
              !Occurs(html, CopyrightMarker) &&
              !Occurs(html, SingleMarker) && !Occurs(html, TranslationDoneMarker) &&
              Occurs(html, TranslationOngoingMarker)
    ensures r == Unknown <==>
              !Occurs(html, CopyrightMarker) &&
              !Occurs(html, SingleMarker) && !Occurs(html, TranslationDoneMarker) &&
              !Occurs(html, TranslationOngoingMarker)
  {
    if Contains(html, CopyrightMarker) then Licensed
    else if Contains(html, SingleMarker) || Contains(html, TranslationDoneMarker) then Completed
    else if Contains(html, TranslationOngoingMarker) then Ongoing
    else Unknown
  }

  /** Adding a copyright heading anywhere makes the status LICENSED, whatever
      else the block says. */
  lemma CopyrightWins(before: string, after: string)
    ensures ParseStatus(before + CopyrightMarker + after) == Licensed
  {
    var html := before + CopyrightMarker + after;
    assert html[|before|..|before| + |CopyrightMarker|] == CopyrightMarker;
    assert OccursAt(html, CopyrightMarker, |before|);
  }

  /** The detail fields the adapter fills. */
  datatype MangaDetails = MangaDetails(
    author: Option<string>,
    genre: string,
    description: string,
    status: Status,
    thumbnailUrl: string)

  /** The genre normalisation of `mangaDetailsParse`: `replace(" ,", ",")`. */
  function NormalizeGenre(genreText: string): (r: string)
    ensures |r| <= |genreText|
  {
    Replace(genreText, " ,", ",")
  }

  /** Genre text without a space before a comma is kept as it is. */
  lemma NormalizeGenreKeepsCleanText(genreText: string)
    requires !Occurs(genreText, " ,")
    ensures NormalizeGenre(genreText) == genreText
  {
    ReplaceAbsent(genreText, " ,", ",", 0);
  }

  /** One pass of the genre normalisation is not enough: a run of two spaces
      before a comma leaves a space before it. */
  lemma NormalizeGenreNotIdempotent()
    ensures NormalizeGenre("a  ,b") == "a ,b"
    ensures NormalizeGenre(NormalizeGenre("a  ,b")) == "a,b"
  {
    var s := "a  ,b";
    MismatchAt(s, " ,", 0, 0);
    MismatchAt(s, " ,", 1, 1);
    assert s[2..4] == " ,";
    ReplaceFirst(s, " ,", ",", 0, 2);
    ReplaceAbsent(s, " ,", ",", 4);
    var t := "a ,b";
    MismatchAt(t, " ,", 0, 0);
    assert t[1..3] == " ,";
    ReplaceFirst(t, " ,", ",", 0, 1);
    ReplaceAbsent(t, " ,", ",", 3);
  }

  /** `mangaDetailsParse`, given the texts the page selectors extract: the
      author span's text (absent when there is no such span), the genre
      spans' text, the description's text, the block's HTML and the image's
      `data-full` attribute. */
  function MangaDetailsParse(authorText: Option<string>, genreText: string, descriptionText: string,
                             infoHtml: string, thumbnail: string): (m: MangaDetails)
    ensures m.author == authorText && m.description == descriptionText && m.thumbnailUrl == thumbnail
    ensures m.status == ParseStatus(infoHtml)
    ensures m.status == Licensed <==> Occurs(infoHtml, CopyrightMarker)
    ensures m.genre == NormalizeGenre(genreText)
  {
    MangaDetails(authorText, NormalizeGenre(genreText), descriptionText, ParseStatus(infoHtml), thumbnail)
  }
}
