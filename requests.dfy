/** The request URLs the adapter builds: the two catalog listings and the
    genre search (Readmanga.kt, `popularMangaRequest`, `latestUpdatesRequest`,
    `searchMangaRequest`, `getFilterList`). Only the URL string of each
    request is modelled. */
module Requests {
  import opened Text

  const BaseUrl := "http://readmanga.me"

  /** Listing page size, also the step of the offset. */
  const PageSize := 70

  // ---------------------------------------------------------------------
  // Kotlin Int arithmetic
  // ---------------------------------------------------------------------

  newtype Int32 = x: int | -0x8000_0000 <= x < 0x8000_0000

  /** Two's-complement wrap-around of a mathematical integer into 32 bits. */
  function Wrap(x: int): (r: Int32)
    ensures (r as int - x) % 0x1_0000_0000 == 0
    ensures -0x8000_0000 <= x < 0x8000_0000 ==> r as int == x
  {
    var m := x % 0x1_0000_0000;
    if m < 0x8000_0000 then m as Int32 else (m - 0x1_0000_0000) as Int32
  }

  /** `70 * (page - 1)` evaluated in Kotlin `Int`: the product wrapped
      into 32 bits. */
  function Offset(page: Int32): (r: Int32)
    ensures (r as int - PageSize * (page as int - 1)) % 0x1_0000_0000 == 0
  {
    var w := Wrap(page as int - 1);
    ScaleCongruent(w as int, page as int - 1, PageSize);
    var r := Wrap(PageSize * (w as int));
    TransCongruent(r as int, PageSize * (w as int), PageSize * (page as int - 1));
    r
  }

  /** Scaling both sides keeps a congruence modulo 2^32. */
  lemma ScaleCongruent(a: int, b: int, k: int)
    requires (a - b) % 0x1_0000_0000 == 0
    ensures (k * a - k * b) % 0x1_0000_0000 == 0
  {
    var q := (a - b) / 0x1_0000_0000;
    assert a - b == 0x1_0000_0000 * q;
    assert k * a - k * b == 0x1_0000_0000 * (k * q);
  }

  /** Congruence modulo 2^32 is transitive. */
  lemma TransCongruent(x: int, y: int, z: int)
    requires (x - y) % 0x1_0000_0000 == 0 && (y - z) % 0x1_0000_0000 == 0
    ensures (x - z) % 0x1_0000_0000 == 0
  {
    var p, q := (x - y) / 0x1_0000_0000, (y - z) / 0x1_0000_0000;
    assert x - z == 0x1_0000_0000 * (p + q);
  }

  /** The largest page whose offset does not overflow. */
  const LastExactPage: int := 30678338

  /** For every page from 1 up to `LastExactPage` the offset is exact; the
      next page is the first whose offset wraps to a negative number. */
  lemma OffsetExact(page: Int32)
    requires 1 <= page as int <= LastExactPage
    ensures Offset(page) as int == PageSize * (page as int - 1)
    ensures 0 <= Offset(page) as int
  {
  }

  lemma OffsetWrapsAfterLastExactPage()
    ensures Offset((LastExactPage + 1) as Int32) < 0
  {
  }

  // ---------------------------------------------------------------------
  // Listings
  // ---------------------------------------------------------------------

  datatype Listing = Popular | Latest

  /** The `sortType` parameter of each listing. */
  function SortKey(listing: Listing): string
  {
    match listing
    case Popular => "rate"
    case Latest => "updated"
  }

  /** The part of a listing URL before the offset. */
  function ListingPrefix(listing: Listing): string
  {
    BaseUrl + "/list?sortType=" + SortKey(listing) + "&offset="
  }

  const ListingSuffix := "&max=70"

  /** The URL of a listing page (`$baseUrl/list?sortType=...&offset=...&max=70`):
      the listing's prefix, the offset as a decimal numeral, `&max=70`. */
  function ListingUrl(listing: Listing, page: Int32): (url: string)
    ensures var p, q := |ListingPrefix(listing)|, |url| - |ListingSuffix|;
            && p < q
            && url[..p] == ListingPrefix(listing)
            && url[q..] == ListingSuffix
            && IsNumeral(url[p..q])
  {
    ThreeParts(ListingPrefix(listing), IntToDecimal(Offset(page) as int), ListingSuffix);
    ListingPrefix(listing) + IntToDecimal(Offset(page) as int) + ListingSuffix
  }

  /** `popularMangaRequest(page)`: the listing sorted by rating. */
  function PopularMangaRequest(page: Int32): (url: string)
    ensures var p := "http://readmanga.me/list?sortType=rate&offset=";
            |p| < |url| - 7 && url[..|p|] == p && url[|url| - 7..] == "&max=70" && IsNumeral(url[|p|..|url| - 7])
  {
    assert ListingPrefix(Popular) == "http://readmanga.me/list?sortType=rate&offset=";
    ListingUrl(Popular, page)
  }

  /** `latestUpdatesRequest(page)`: the listing sorted by update. */
  function LatestUpdatesRequest(page: Int32): (url: string)
    ensures var p := "http://readmanga.me/list?sortType=updated&offset=";
            |p| < |url| - 7 && url[..|p|] == p && url[|url| - 7..] == "&max=70" && IsNumeral(url[|p|..|url| - 7])
  {
    assert ListingPrefix(Latest) == "http://readmanga.me/list?sortType=updated&offset=";
    ListingUrl(Latest, page)
  }

  /** Reading a listing URL back: it consists of the fixed prefix naming
      the sort key, a decimal numeral and `&max=70`; for every page from 1 to
      `LastExactPage` that numeral denotes exactly 70 * (page - 1). */
  lemma ListingUrlReadsBack(listing: Listing, page: Int32)
    requires 1 <= page as int <= LastExactPage
    ensures var url := ListingUrl(listing, page);
            var p := |ListingPrefix(listing)|;
            var q := |url| - |ListingSuffix|;
            && p < q
            && url[..p] == ListingPrefix(listing)
            && url[q..] == ListingSuffix
            && AllDigits(url[p..q])
            && DigitsValue(url[p..q]) == PageSize * (page as int - 1)
  {
    var digits := NatToDecimal(Offset(page) as int);
    OffsetExact(page);
    NatToDecimalValue(Offset(page) as int);
    ThreeParts(ListingPrefix(listing), digits, ListingSuffix);
  }

  /** Reading a listing URL back for every `Int` page: between the fixed
      prefix and `&max=70` stands the Kotlin `Int` offset, written without
      leading zeros and with a `-` when the product has wrapped to a
      negative value. */
  lemma ListingUrlSignedReadsBack(listing: Listing, page: Int32)
    ensures var url, o := ListingUrl(listing, page), Offset(page) as int;
            var p, q := |ListingPrefix(listing)|, |url| - |ListingSuffix|;
            && p < q
            && url[..p] == ListingPrefix(listing)
            && url[q..] == ListingSuffix
            && (o >= 0 ==>
                  AllDigits(url[p..q]) && DigitsValue(url[p..q]) == o && (q - p > 1 ==> url[p] != '0'))
            && (o < 0 ==>
                  url[p] == '-' && AllDigits(url[p + 1..q]) && DigitsValue(url[p + 1..q]) == -o && url[p + 1] != '0')
  {
    var o := Offset(page) as int;
    var digits := IntToDecimal(o);
    ThreeParts(ListingPrefix(listing), digits, ListingSuffix);
    if o >= 0 {
      NatToDecimalValue(o);
    } else {
      NatToDecimalValue(-o);
      assert digits[1..] == NatToDecimal(-o);
      assert -o >= 10 ==> digits[1] == NatToDecimal(-o)[0];
    }
  }

  /** The three parts of a concatenation read back by slicing. */
  lemma ThreeParts(a: string, b: string, c: string)
    ensures var s := a + b + c;
            && s[..|a|] == a
            && s[|a|..|s| - |c|] == b
            && s[|s| - |c|..] == c
  {
  }

  // ---------------------------------------------------------------------
  // Genre search
  // ---------------------------------------------------------------------

  /** `Filter.TriState` states 0, 1 and 2. */
  datatype TriState = Ignore | Include | Exclude

  /** A genre filter: its label, the site's id and its state. */
  datatype Genre = Genre(name: string, id: string, state: TriState)

  /** `arrayOf("=", "=in", "=ex")[state]`. */
  function StateSuffix(state: TriState): (r: string)
    ensures '&' !in r
  {
    match state
    case Ignore => "="
    case Include => "=in"
    case Exclude => "=ex"
  }

  /** The query term of one filter. */
  function Term(g: Genre): string
  {
    g.id + StateSuffix(g.state)
  }

  /** One term per filter, in filter order. */
  function Terms(filters: seq<Genre>): (terms: seq<string>)
    ensures |terms| == |filters|
    ensures forall i :: 0 <= i < |filters| ==> terms[i] == Term(filters[i])
    decreases |filters|
  {
    if |filters| == 0 then [] else [Term(filters[0])] + Terms(filters[1..])
  }

  /** The part of a search URL before the genre terms. */
  function SearchPrefix(query: string): string
  {
    BaseUrl + "/search?q=" + query + "&"
  }

  /** `searchMangaRequest(page, query, filters)`: the query is inserted as
      given and the page number is not used. */
  function SearchMangaRequest(page: Int32, query: string, filters: seq<Genre>): (url: string)
    ensures |SearchPrefix(query)| <= |url| && url[..|SearchPrefix(query)|] == SearchPrefix(query)
    ensures |filters| == 0 ==> url == SearchPrefix(query)
  {
    SearchPrefix(query) + Join(Terms(filters), "&")
  }

  /** The search URL carries exactly one `&`-separated term per filter, in
      filter order, each the filter's id followed by `=`, `=in` or `=ex`
      (so ignored filters are sent too), provided no id contains `&`. */
  lemma SearchTermsReadBack(page: Int32, query: string, filters: seq<Genre>)
    requires |filters| > 0
    requires forall i :: 0 <= i < |filters| ==> '&' !in filters[i].id
    ensures var url := SearchMangaRequest(page, query, filters);
            var p := |SearchPrefix(query)|;
            var parts := Split(url[p..], '&');
            && url[..p] == SearchPrefix(query)
            && |parts| == |filters|
            && forall i :: 0 <= i < |filters| ==> parts[i] == filters[i].id + StateSuffix(filters[i].state)
  {
    var terms := Terms(filters);
    forall i | 0 <= i < |terms| ensures '&' !in terms[i] {
      assert terms[i] == filters[i].id + StateSuffix(filters[i].state);
    }
    SplitJoin(terms, '&');
    var url := SearchMangaRequest(page, query, filters);
    var p := |SearchPrefix(query)|;
    assert url[..p] == SearchPrefix(query);
    assert url[p..] == Join(terms, "&");
  }

  /** The genre filters that `getFilterList` offers, all in state Ignore. */
  const GenreFilters: seq<Genre> := [
    Genre("арт", "el_5685", Ignore),
    Genre("боевик", "el_2155", Ignore),
    Genre("боевые искусства", "el_2143", Ignore),
    Genre("вампиры", "el_2148", Ignore),
    Genre("гарем", "el_2142", Ignore),
    Genre("гендерная интрига", "el_2156", Ignore),
    Genre("героическое фэнтези", "el_2146", Ignore),
    Genre("детектив", "el_2152", Ignore),
    Genre("дзёсэй", "el_2158", Ignore),
    Genre("додзинси", "el_2141", Ignore),
    Genre("драма", "el_2118", Ignore),
    Genre("игра", "el_2154", Ignore),
    Genre("история", "el_2119", Ignore),
    Genre("киберпанк", "el_8032", Ignore),
    Genre("кодомо", "el_2137", Ignore),
    Genre("комедия", "el_2136", Ignore),
    Genre("махо-сёдзё", "el_2147", Ignore),
    Genre("меха", "el_2126", Ignore),
    Genre("мистика", "el_2132", Ignore),
    Genre("научная фантастика", "el_2133", Ignore),
    Genre("повседневность", "el_2135", Ignore),
    Genre("постапокалиптика", "el_2151", Ignore),
    Genre("приключения", "el_2130", Ignore),
    Genre("психология", "el_2144", Ignore),
    Genre("романтика", "el_2121", Ignore),
    Genre("самурайский боевик", "el_2124", Ignore),
    Genre("сверхъестественное", "el_2159", Ignore),
    Genre("сёдзё", "el_2122", Ignore),
    Genre("сёдзё-ай", "el_2128", Ignore),
    Genre("сёнэн", "el_2134", Ignore),
    Genre("сёнэн-ай", "el_2139", Ignore),
    Genre("спорт", "el_2129", Ignore),
    Genre("сэйнэн", "el_2138", Ignore),
    Genre("трагедия", "el_2153", Ignore),
    Genre("триллер", "el_2150", Ignore),
    Genre("ужасы", "el_2125", Ignore),
    Genre("фантастика", "el_2140", Ignore),
    Genre("фэнтези", "el_2131", Ignore),
    Genre("школа", "el_2127", Ignore),
    Genre("этти", "el_2149", Ignore),
    Genre("юри", "el_2123", Ignore)
  ]

  /** `getFilterList()`: a fresh list of the genre filters. */
  function GetFilterList(): (filters: seq<Genre>)
    ensures |filters| == 41
    ensures forall i :: 0 <= i < |filters| ==>
              filters[i].state == Ignore && |filters[i].id| == 7 &&
              filters[i].id[..3] == "el_" && AllDigits(filters[i].id[3..])
  {
    GenreFilters
  }

  /** With the default filter list, a search sends 41 terms, each an id
      followed by a bare `=`. */
  lemma DefaultSearchSendsEveryGenre(page: Int32, query: string)
    ensures var url := SearchMangaRequest(page, query, GetFilterList());
            var p := |SearchPrefix(query)|;
            var parts := Split(url[p..], '&');
            && |parts| == 41
            && forall i :: 0 <= i < 41 ==> parts[i] == GenreFilters[i].id + "="
  {
    var filters := GetFilterList();
    forall i | 0 <= i < |filters| ensures '&' !in filters[i].id {
      var id := filters[i].id;
      assert id == id[..3] + id[3..];
      assert forall k :: 0 <= k < |id| ==> id[k] != '&' by {
        forall k | 0 <= k < |id| ensures id[k] != '&' {
          if k < 3 { assert id[k] == "el_"[k]; } else { assert IsDigit(id[3..][k - 3]); }
        }
      }
    }
    SearchTermsReadBack(page, query, filters);
  }
}
