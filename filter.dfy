/**
 * The filter predicate of the movie page (`shouldRenderMovie` with its nested
 * `isYearInRange`): a conjunction of a category, a genre, a region and a year
 * check, each driven by a fixed table of the button labels. The active
 * selection is an explicit value instead of the page's global filter object.
 */
module Filter {
  import opened Optional
  import opened Text

  /**
   * A catalog record as the OMDb API returns it. A field missing from the
   * response is the empty string, which the page treats like an empty one;
   * `kind` is the record's `Type` field.
   */
  datatype Movie = Movie(
    imdbID: string,
    title: string,
    year: string,
    genre: string,
    country: string,
    kind: string,
    poster: string)

  /** The label of the active button in each filter group. */
  datatype Selection = Selection(category: string, genre: string, region: string, year: string)

  /** The label of the "no constraint" button of every group. */
  const All := "全部"

  const MovieCategory := "电影"
  const SeriesCategory := "剧集"
  const AnimeCategory := "动漫"
  const Animation := "Animation"

  /** `Genre` split on ", " with no trimming; an empty or missing field has no genres. */
  function Genres(m: Movie): seq<string> {
    if m.genre == "" then [] else Split(m.genre, ", ")
  }

  /** `Country` split on ", "; each piece is trimmed where it is compared. */
  function Countries(m: Movie): seq<string> {
    if m.country == "" then [] else Split(m.country, ", ")
  }

  // ---------------------------------------------------------------------------
  // category

  /** Three independent checks; a category label other than these three constrains nothing. */
  predicate CategoryOk(m: Movie, category: string) {
    && (category == MovieCategory ==> m.kind == "movie")
    && (category == SeriesCategory ==> m.kind == "series" && Animation !in Genres(m))
    && (category == AnimeCategory ==> Animation in Genres(m))
  }

  // ---------------------------------------------------------------------------
  // genre

  /** Genre button label to the OMDb genre tag. */
  const GenreTags: map<string, string> := map[
    "喜剧" := "Comedy",
    "爱情" := "Romance",
    "恐怖" := "Horror",
    "动作" := "Action",
    "科幻" := "Sci-Fi",
    "剧情" := "Drama",
    "犯罪" := "Crime",
    "悬疑" := "Mystery",
    "惊悚" := "Thriller",
    "家庭" := "Family",
    "冒险" := "Adventure",
    "运动" := "Sport",
    "战争" := "War",
    "灾难" := "Disaster"
  ]

  /** The tag a genre label stands for; a label missing from the table stands for itself. */
  function GenreTag(button: string): string {
    if button in GenreTags then GenreTags[button] else button
  }

  predicate GenreOk(m: Movie, genre: string) {
    genre == All || GenreTag(genre) in Genres(m)
  }

  // ---------------------------------------------------------------------------
  // region

  /** Region button label to the country names of that region group. */
  const RegionCountries: map<string, set<string>> := map[
    "国语" := {"China", "Hong Kong", "Taiwan", "Macau"},
    "英语" := {"United States", "UK", "Canada", "Australia", "New Zealand"},
    "日语" := {"Japan"},
    "韩语" := {"South Korea"}
  ]

  /** The label that selects countries outside every region group. */
  const OtherRegion := "其他"

  /** `c` belongs to one of the region groups. */
  predicate InSomeGroup(c: string) {
    exists r :: r in RegionCountries && c in RegionCountries[r]
  }

  /** Some trimmed country of `m` is in `group`. */
  predicate SomeCountryIn(m: Movie, group: set<string>) {
    var cs := Countries(m);
    exists i :: 0 <= i < |cs| && Trim(cs[i]) in group
  }

  /** Every trimmed country of `m` is outside all region groups. */
  predicate AllCountriesOther(m: Movie) {
    var cs := Countries(m);
    forall i :: 0 <= i < |cs| ==> !InSomeGroup(Trim(cs[i]))
  }

  /** The first region check: a group label, "other", or anything else (no constraint). */
  predicate RegionFirstCheck(m: Movie, region: string) {
    if region == All then true
    else if region in RegionCountries then SomeCountryIn(m, RegionCountries[region])
    else if region == OtherRegion then AllCountriesOther(m)
    else true
  }

  /** The second region check, which repeats the group case of the first. */
  predicate RegionSecondCheck(m: Movie, region: string) {
    region != All && region in RegionCountries ==> SomeCountryIn(m, RegionCountries[region])
  }

  predicate RegionOk(m: Movie, region: string) {
    RegionFirstCheck(m, region) && RegionSecondCheck(m, region)
  }

  // ---------------------------------------------------------------------------
  // year

  /** The separators of a year range: en dash, tilde and hyphen. */
  const YearSeparators: set<char> := {'–', '~', '-'}

  const Before2020 := "2020以前"

  /** A parsed year field: the first and the last year of the run. */
  datatype YearSpan = YearSpan(start: nat, end: nat)

  /** `Number(piece.replace(/\D/g, '')) || 0`: the digits of the piece as a number, 0 when there are none. */
  function PieceValue(piece: string): nat {
    DecimalValue(KeepDigits(piece))
  }

  /** The year field split on the separators; `end` is `start` only when there is a single piece. */
  function ParseYear(year: string): YearSpan {
    var pieces := SplitAny(year, YearSeparators);
    var start := PieceValue(pieces[0]);
    YearSpan(start, if |pieces| >= 2 then PieceValue(pieces[1]) else start)
  }

  /** An empty year, or "n/a" in any letter case. */
  predicate NotAvailable(year: string) {
    year == "" || (|year| == 3 && year[0] in {'n', 'N'} && year[1] == '/' && year[2] in {'a', 'A'})
  }

  /** `isYearInRange(movieYearStr, filterYear)`. */
  predicate YearInRange(year: string, filterYear: string) {
    if NotAvailable(year) then false
    else
      var span := ParseYear(year);
      if filterYear == All then true
      else if filterYear == Before2020 then span.end <= 2020
      else match NumberOf(filterYear)
        case None => false
        case Some(n) => span.start <= n <= span.end
  }

  predicate YearOk(m: Movie, year: string) {
    year == All || YearInRange(m.year, year)
  }

  // ---------------------------------------------------------------------------
  // the predicate

  /** `shouldRenderMovie(movie)` under the selection `sel`. */
  predicate ShouldRender(m: Movie, sel: Selection) {
    && CategoryOk(m, sel.category)
    && GenreOk(m, sel.genre)
    && RegionOk(m, sel.region)
    && YearOk(m, sel.year)
  }

  // ---------------------------------------------------------------------------
  // properties

  /** With every group at "全部" the predicate accepts every record. */
  lemma AllSelectionAcceptsEverything(m: Movie)
    ensures ShouldRender(m, Selection(All, All, All, All))
  {
  }

  /**
   * "电影" admits only movies, "剧集" only series without the Animation genre,
   * "动漫" only records with the Animation genre whatever their type; any other
   * category label, "全部" included, constrains nothing.
   */
  lemma CategoryRules(m: Movie, sel: Selection)
    ensures sel.category == MovieCategory ==>
      (ShouldRender(m, sel) <==> m.kind == "movie" && ShouldRender(m, sel.(category := All)))
    ensures sel.category == SeriesCategory ==>
      (ShouldRender(m, sel) <==>
        m.kind == "series" && Animation !in Genres(m) && ShouldRender(m, sel.(category := All)))
    ensures sel.category == AnimeCategory ==>
      (ShouldRender(m, sel) <==> Animation in Genres(m) && ShouldRender(m, sel.(category := All)))
    ensures sel.category !in {MovieCategory, SeriesCategory, AnimeCategory} ==>
      ShouldRender(m, sel) == ShouldRender(m, sel.(category := All))
  {
  }

  /** A label outside the genre table is matched verbatim; each of the fourteen labels stands for its tag. */
  lemma GenreTable(button: string)
    ensures button !in GenreTags ==> GenreTag(button) == button
    ensures GenreTag("喜剧") == "Comedy" && GenreTag("爱情") == "Romance" && GenreTag("恐怖") == "Horror"
    ensures GenreTag("动作") == "Action" && GenreTag("科幻") == "Sci-Fi" && GenreTag("剧情") == "Drama"
    ensures GenreTag("犯罪") == "Crime" && GenreTag("悬疑") == "Mystery" && GenreTag("惊悚") == "Thriller"
    ensures GenreTag("家庭") == "Family" && GenreTag("冒险") == "Adventure" && GenreTag("运动") == "Sport"
    ensures GenreTag("战争") == "War" && GenreTag("灾难") == "Disaster"
  {
  }

  /** A genre label other than "全部" requires the label's tag among the record's genres. */
  lemma GenreRule(m: Movie, sel: Selection)
    ensures sel.genre == All ==> ShouldRender(m, sel) == ShouldRender(m, sel.(genre := All))
    ensures sel.genre != All ==>
      (ShouldRender(m, sel) <==> GenreTag(sel.genre) in Genres(m) && ShouldRender(m, sel.(genre := All)))
  {
  }

  /**
   * For a record whose `Genre` lists the genres `gs` joined by ", ", the genres
   * are exactly `gs`, and a genre label matches iff its tag is one of them.
   */
  lemma GenreOfListedRecord(m: Movie, gs: seq<string>, button: string)
    requires |gs| >= 1 && gs != [""]
    requires forall i :: 0 <= i < |gs| ==> ',' !in gs[i]
    requires m.genre == Join(gs, ", ")
    ensures Genres(m) == gs
    ensures GenreOk(m, button) <==> button == All || GenreTag(button) in gs
  {
    JoinThenSplit(gs, ", ");
    assert m.genre != "" by {
      if |gs| > 1 {
        assert |Join(gs, ", ")| >= 2;
      }
    }
  }

  /**
   * A region-group label requires some trimmed country in the group; "其他"
   * requires every trimmed country outside all groups; any other label
   * constrains nothing. The repeated group check never changes the outcome.
   */
  lemma RegionRules(m: Movie, sel: Selection)
    ensures sel.region in RegionCountries ==>
      (ShouldRender(m, sel) <==>
        SomeCountryIn(m, RegionCountries[sel.region]) && ShouldRender(m, sel.(region := All)))
    ensures sel.region == OtherRegion ==>
      (ShouldRender(m, sel) <==> AllCountriesOther(m) && ShouldRender(m, sel.(region := All)))
    ensures sel.region !in RegionCountries && sel.region != OtherRegion ==>
      ShouldRender(m, sel) == ShouldRender(m, sel.(region := All))
    ensures RegionOk(m, sel.region) == RegionFirstCheck(m, sel.region)
  {
    assert All !in RegionCountries && OtherRegion !in RegionCountries;
  }

  /** A record with no country is "其他" and in no region group. */
  lemma NoCountryIsOther(m: Movie, sel: Selection)
    requires m.country == ""
    ensures sel.region == OtherRegion ==> ShouldRender(m, sel) == ShouldRender(m, sel.(region := All))
    ensures sel.region in RegionCountries ==> !ShouldRender(m, sel)
  {
    assert OtherRegion !in RegionCountries;
  }

  /** A record from a single country: "其他" holds iff the country is in no group. */
  lemma SingleCountryRegion(m: Movie, c: string, region: string)
    requires c != "" && ',' !in c && !IsSpace(c[0]) && !IsSpace(c[|c| - 1])
    requires m.country == c
    ensures region in RegionCountries ==> (RegionOk(m, region) <==> c in RegionCountries[region])
    ensures region == OtherRegion ==> (RegionOk(m, region) <==> !InSomeGroup(c))
  {
    JoinThenSplit([c], ", ");
    assert Countries(m) == [c];
    TrimLeavesWord(c);
    assert OtherRegion !in RegionCountries;
  }

  /** "Germany" is in no region group. */
  lemma GermanyInNoGroup()
    ensures !InSomeGroup("Germany")
  {
    forall r | r in RegionCountries ensures "Germany" !in RegionCountries[r] {
      assert r in {"国语", "英语", "日语", "韩语"};
    }
  }

  /** A record from Germany is "其他" and not "国语". */
  lemma GermanyIsOther(m: Movie)
    requires m.country == "Germany"
    ensures RegionOk(m, OtherRegion) && !RegionOk(m, "国语")
  {
    GermanyInNoGroup();
    SingleCountryRegion(m, "Germany", OtherRegion);
    SingleCountryRegion(m, "Germany", "国语");
  }

  /** A record from China is "国语" and not "其他". */
  lemma ChinaIsNotOther(m: Movie)
    requires m.country == "China"
    ensures !RegionOk(m, OtherRegion) && RegionOk(m, "国语")
  {
    assert "China" in RegionCountries["国语"];
    SingleCountryRegion(m, "China", OtherRegion);
    SingleCountryRegion(m, "China", "国语");
  }

  /** `PieceValue` reads back the notation of a year. */
  lemma PieceValueOfShow(n: nat)
    ensures PieceValue(Show(n)) == n
  {
    ShowRoundTrip(n);
  }

  /** Digit strings contain no year separator. */
  lemma ShowHasNoSeparator(n: nat)
    ensures forall j :: 0 <= j < |Show(n)| ==> Show(n)[j] !in YearSeparators
  {
    var s := Show(n);
    forall j | 0 <= j < |s| ensures s[j] !in YearSeparators {
      assert IsDigit(s[j]);
    }
  }

  /**
   * Year fields read back, whichever of "–", "~", "-" separates the years:
   * "a" is the span a..a and "a–b" is a..b, while an open run "a–" ends at
   * year 0 (the second piece is present but empty).
   */
  lemma ParseYearRoundTrip(a: nat, b: nat, c: char)
    requires c in YearSeparators
    ensures ParseYear(Show(a)) == YearSpan(a, a)
    ensures ParseYear(Show(a) + [c] + Show(b)) == YearSpan(a, b)
    ensures ParseYear(Show(a) + [c]) == YearSpan(a, 0)
  {
    PieceValueOfShow(a);
    PieceValueOfShow(b);
    ShowHasNoSeparator(a);
    ShowHasNoSeparator(b);
    JoinThenSplitAny([Show(a)], c, YearSeparators);
    JoinThenSplitAny([Show(a), Show(b)], c, YearSeparators);
    assert Join([Show(a), Show(b)], [c]) == Show(a) + [c] + Show(b) by {
      assert [Show(a), Show(b)][1..] == [Show(b)];
    }
    JoinThenSplitAny([Show(a), ""], c, YearSeparators);
    assert Join([Show(a), ""], [c]) == Show(a) + [c] by {
      assert [Show(a), ""][1..] == [""];
    }
    assert PieceValue("") == 0;
  }

  /** A field that starts with a digit is neither empty nor "n/a". */
  lemma DigitLedIsAvailable(year: string)
    requires year != [] && IsDigit(year[0])
    ensures !NotAvailable(year)
  {
  }

  /** A digit string is neither "全部" nor "2020以前". */
  lemma ShowIsPlainNumber(n: nat)
    ensures Show(n) != All && Show(n) != Before2020
  {
    var s := Show(n);
    assert IsDigit(s[0]);
    assert !IsDigit(Before2020[4]) && !IsDigit(All[0]);
  }

  /** How a year field with a known span answers the two kinds of year button. */
  lemma YearInRangeBySpan(year: string, span: YearSpan, filterYear: string, n: int)
    requires !NotAvailable(year) && ParseYear(year) == span
    ensures filterYear == Before2020 ==> (YearInRange(year, filterYear) <==> span.end <= 2020)
    ensures filterYear != All && filterYear != Before2020 && NumberOf(filterYear) == Some(n) ==>
      (YearInRange(year, filterYear) <==> span.start <= n <= span.end)
  {
  }

  /**
   * A numeric year selection n matches "a–b" (or "a~b", "a-b") iff a <= n <= b;
   * "2020以前" matches iff b <= 2020.
   */
  lemma RangeMatching(a: nat, b: nat, n: nat, c: char)
    requires c in YearSeparators
    ensures YearInRange(Show(a) + [c] + Show(b), Show(n)) <==> a <= n <= b
    ensures YearInRange(Show(a) + [c] + Show(b), Before2020) <==> b <= 2020
  {
    var y := Show(a) + [c] + Show(b);
    ParseYearRoundTrip(a, b, c);
    NumberOfShow(n);
    ShowIsPlainNumber(n);
    assert y[0] == Show(a)[0];
    DigitLedIsAvailable(y);
    YearInRangeBySpan(y, YearSpan(a, b), Show(n), n);
    YearInRangeBySpan(y, YearSpan(a, b), Before2020, n);
  }

  /** A single year matches only itself, and "2020以前" iff it is at most 2020. */
  lemma SingleYearMatching(a: nat, n: nat)
    ensures YearInRange(Show(a), Show(n)) <==> a == n
    ensures YearInRange(Show(a), Before2020) <==> a <= 2020
  {
    ParseYearRoundTrip(a, a, '–');
    NumberOfShow(n);
    ShowIsPlainNumber(n);
    DigitLedIsAvailable(Show(a));
    YearInRangeBySpan(Show(a), YearSpan(a, a), Show(n), n);
    YearInRangeBySpan(Show(a), YearSpan(a, a), Before2020, n);
  }

  /** An open run "a–" ends at year 0: it matches no positive year, yet counts as "2020以前". */
  lemma OpenRunMatching(a: nat, n: nat, c: char)
    requires c in YearSeparators
    ensures n > 0 ==> !YearInRange(Show(a) + [c], Show(n))
    ensures YearInRange(Show(a) + [c], Before2020)
  {
    var y := Show(a) + [c];
    ParseYearRoundTrip(a, a, c);
    NumberOfShow(n);
    ShowIsPlainNumber(n);
    assert y[0] == Show(a)[0];
    DigitLedIsAvailable(y);
    YearInRangeBySpan(y, YearSpan(a, 0), Show(n), n);
    YearInRangeBySpan(y, YearSpan(a, 0), Before2020, n);
  }

  /** An empty year, or "n/a" in any letter case, matches no selection, "2020以前" included. */
  lemma NotAvailableMatchesNothing(year: string, filterYear: string)
    ensures NotAvailable(year) ==> !YearInRange(year, filterYear)
    ensures NotAvailable("") && NotAvailable("n/a") && NotAvailable("N/a")
    ensures NotAvailable("n/A") && NotAvailable("N/A")
  {
  }

  /** A selection other than "全部" and "2020以前" that `Number` reads as NaN matches no year. */
  lemma NonNumericMatchesNothing(year: string, filterYear: string)
    requires filterYear != All && filterYear != Before2020 && NumberOf(filterYear).None?
    ensures !YearInRange(year, filterYear)
  {
  }

  lemma ShowExampleYears()
    ensures Show(2015) == "2015" && Show(2019) == "2019"
    ensures Show(2020) == "2020" && Show(2021) == "2021" && Show(2022) == "2022"
  {
    assert Show(201) == "201" by { assert Show(20) == "20" by { assert Show(2) == "2"; } }
    assert Show(202) == "202" by { assert Show(20) == "20" by { assert Show(2) == "2"; } }
  }

  /** "2019–2021" matches 2019, 2020 and 2021 but not 2022 nor "2020以前"; "2015" is "2020以前". */
  lemma YearExamples(run: string, single: string)
    requires run == "2019–2021" && single == "2015"
    ensures YearInRange(run, "2019") && YearInRange(run, "2020") && YearInRange(run, "2021")
    ensures !YearInRange(run, "2022") && !YearInRange(run, Before2020)
    ensures YearInRange(single, Before2020)
  {
    ShowExampleYears();
    assert run == Show(2019) + "–" + Show(2021);
    RangeMatching(2019, 2021, 2019, '–');
    RangeMatching(2019, 2021, 2020, '–');
    RangeMatching(2019, 2021, 2021, '–');
    RangeMatching(2019, 2021, 2022, '–');
    SingleYearMatching(2015, 2015);
  }
}
