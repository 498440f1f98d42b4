/**
 * `renderMovies` without its DOM output: for each stored rating, in store
 * order, fetch the catalog record, keep it when it passes the filter and its
 * imdbID is not yet listed, join it with the rating, and finally sort the
 * list with the page's comparator.
 */
module Pipeline {
  import opened Optional
  import opened Text
  import opened Filter
  import opened Ratings
  import opened FirstWins
  import opened StableSort

  /** `{...movie, userRating, name}`: a catalog record joined with its rating record. */
  datatype Joined = Joined(movie: Movie, userRating: real, name: string)

  /** The sort button value that orders by year; every other value orders by rating. */
  const Latest := "latest"

  /** `parseInt(Year.split('–')[0], 10) || 0`: the year the field starts with. */
  function LeadingYear(year: string): int {
    ParseIntOr0(Split(year, "–")[0])
  }

  /** The comparator handed to `sort`: negative when `a` goes before `b`. */
  function Compare(a: Joined, b: Joined, mode: string): real {
    if mode == Latest then (LeadingYear(b.movie.year) - LeadingYear(a.movie.year)) as real
    else b.userRating - a.userRating
  }

  /** The number the comparator orders by, descending. */
  function SortKey(x: Joined, mode: string): real {
    if mode == Latest then LeadingYear(x.movie.year) as real else x.userRating
  }

  function KeyOf(mode: string): Joined -> real {
    x => SortKey(x, mode)
  }

  /**
   * The comparator is the difference of the sort keys, hence consistent in the
   * sense `Array.prototype.sort` requires: reflexively zero, antisymmetric, and
   * transitive both for "not after" and for "equal".
   */
  lemma CompareIsConsistent(a: Joined, b: Joined, c: Joined, mode: string)
    ensures Compare(a, b, mode) == SortKey(b, mode) - SortKey(a, mode)
    ensures Compare(a, a, mode) == 0.0
    ensures Compare(a, b, mode) == -Compare(b, a, mode)
    ensures Compare(a, b, mode) <= 0.0 && Compare(b, c, mode) <= 0.0 ==> Compare(a, c, mode) <= 0.0
    ensures Compare(a, b, mode) == 0.0 && Compare(b, c, mode) == 0.0 ==> Compare(a, c, mode) == 0.0
  {
  }

  /**
   * `Year.split('–')[0]` changes nothing for `parseInt`, which stops at the
   * en dash anyway: the leading year is `parseInt` of the whole field.
   */
  lemma LeadingYearIsParseInt(year: string)
    ensures LeadingYear(year) == ParseIntOr0(year)
  {
    var first := Split(year, "–")[0];
    FirstPiece(year, "–");
    if |first| < |year| {
      var rest := year[|first|..];
      assert year == first + rest && rest[0] == '–';
      ParseIntStopsAt(first, rest);
    } else {
      assert first == year;
    }
  }

  lemma LeadingYearAfterNumber(a: nat, rest: string)
    requires rest == [] || !IsDigit(rest[0])
    ensures LeadingYear(Show(a) + rest) == a
  {
    LeadingYearIsParseInt(Show(a) + rest);
    ParseIntReadsLeadingNumber(a, rest);
  }

  /** Under "latest" the key of "a–b" is a. */
  lemma LeadingYearOfRange(a: nat, b: nat)
    ensures LeadingYear(Show(a) + "–" + Show(b)) == a
  {
    LeadingYearAfterNumber(a, "–" + Show(b));
    assert Show(a) + "–" + Show(b) == Show(a) + ("–" + Show(b));
  }

  /** Under "latest" the key of a single year is that year. */
  lemma LeadingYearOfSingle(a: nat)
    ensures LeadingYear(Show(a)) == a
  {
    LeadingYearAfterNumber(a, []);
    assert Show(a) + [] == Show(a);
  }

  /** A field without a leading number, such as "N/A", sorts as year 0. */
  lemma LeadingYearWithoutDigits(year: string)
    requires year != [] && !IsSpace(year[0]) && !IsDigit(year[0]) && year[0] != '-' && year[0] != '+'
    ensures LeadingYear(year) == 0
  {
    LeadingYearIsParseInt(year);
    assert TrimStart(year) == year;
    assert LeadingDigits(year) == [];
  }

  // ---------------------------------------------------------------------------
  // sorting

  /**
   * `movies.sort(comparator)`: a permutation ordered so that the comparator
   * never puts a later element first, in which elements the comparator ties
   * keep their order.
   */
  function Arrange(xs: seq<Joined>, mode: string): (r: seq<Joined>)
    ensures multiset(r) == multiset(xs)
    ensures forall i, j :: 0 <= i < j < |r| ==> Compare(r[i], r[j], mode) <= 0.0
    ensures forall k :: WithKey(r, KeyOf(mode), k) == WithKey(xs, KeyOf(mode), k)
  {
    var r := Sort(xs, KeyOf(mode));
    assert forall i, j :: 0 <= i < j < |r| ==> KeyOf(mode)(r[i]) >= KeyOf(mode)(r[j]);
    r
  }

  /**
   * `Arrange` is the only possible outcome: any arrangement of `xs` ordered by
   * the comparator that keeps tied elements in their order equals it.
   */
  lemma ArrangeIsTheStableSort(xs: seq<Joined>, ys: seq<Joined>, mode: string)
    requires forall i, j :: 0 <= i < j < |ys| ==> Compare(ys[i], ys[j], mode) <= 0.0
    requires forall k :: WithKey(ys, KeyOf(mode), k) == WithKey(xs, KeyOf(mode), k)
    ensures ys == Arrange(xs, mode)
  {
    var r := Arrange(xs, mode);
    assert SortedDesc(ys, KeyOf(mode));
    assert SortedDesc(r, KeyOf(mode));
    SortedStableUnique(ys, r, KeyOf(mode));
  }

  /** Ratings 7, 9, 9, 3 come out 9, 9, 7, 3, the two nines in their original order. */
  lemma RatingOrderExample(a: Joined, b: Joined, c: Joined, d: Joined, mode: string)
    requires mode != Latest
    requires a.userRating == 7.0 && b.userRating == 9.0 && c.userRating == 9.0 && d.userRating == 3.0
    ensures Arrange([a, b, c, d], mode) == [b, c, a, d]
  {
    var key := KeyOf(mode);
    SortedTail(b, c, d, key);
    InsertSeven(a, b, c, d, key);
    assert [a, b, c, d][1..] == [b, c, d];
  }

  lemma SortedTail<T>(b: T, c: T, d: T, key: T -> real)
    requires key(b) == 9.0 && key(c) == 9.0 && key(d) == 3.0
    ensures Sort([b, c, d], key) == [b, c, d]
  {
    assert [d][1..] == [];
    assert Sort([d], key) == [d];
    assert [c, d][1..] == [d];
    assert Sort([c, d], key) == Insert(c, [d], key) == [c, d];
    assert [b, c, d][1..] == [c, d];
    assert Sort([b, c, d], key) == Insert(b, [c, d], key);
  }

  lemma InsertSeven<T>(a: T, b: T, c: T, d: T, key: T -> real)
    requires key(a) == 7.0 && key(b) == 9.0 && key(c) == 9.0 && key(d) == 3.0
    ensures Insert(a, [b, c, d], key) == [b, c, a, d]
  {
    assert Insert(a, [d], key) == [a, d];
    assert [c, d][1..] == [d];
    assert Insert(a, [c, d], key) == [c, a, d];
    assert [b, c, d][1..] == [c, d];
  }

  // ---------------------------------------------------------------------------
  // accumulation

  /** The joined record for one stored rating, when its fetch succeeds and it passes the filter. */
  function JoinFor(r: Rating, sel: Selection, details: string -> Option<Movie>): Option<Joined> {
    match details(r.id)
    case None => None
    case Some(m) => if ShouldRender(m, sel) then Some(Joined(m, r.rating, r.name)) else None
  }

  function Joiner(sel: Selection, details: string -> Option<Movie>): Rating -> Option<Joined> {
    r => JoinFor(r, sel, details)
  }

  function ImdbIdOf(x: Joined): string {
    x.movie.imdbID
  }

  /** The list before sorting: joined records in store order, the first of each imdbID only. */
  function Accumulate(entries: seq<Rating>, sel: Selection, details: string -> Option<Movie>): seq<Joined> {
    KeepFirst(entries, Joiner(sel, details), ImdbIdOf)
  }

  /** The list the page shows. */
  function Rendered(entries: seq<Rating>, sel: Selection, mode: string, details: string -> Option<Movie>): seq<Joined> {
    Arrange(Accumulate(entries, sel, details), mode)
  }

  /** The page's list of movies (`window.movies`). */
  class MoviePage {
    var movies: seq<Joined>

    constructor ()
      ensures movies == []
    {
      movies := [];
    }

    /**
     * `renderMovies()` with `getMovieDetails` given as `details`, the global
     * filters as `sel` and the sort value as `mode`: the list is rebuilt from
     * the store and sorted.
     */
    method Render(store: RatingStore, sel: Selection, mode: string, details: string -> Option<Movie>)
      modifies this
      ensures movies == Rendered(store.entries, sel, mode, details)
    {
      movies := [];
      var entries := store.entries;
      var i := 0;
      while i < |entries|
        invariant 0 <= i <= |entries|
        invariant movies == Accumulate(entries[..i], sel, details)
      {
        var r := entries[i];
        assert entries[..i + 1][..i] == entries[..i];
        var movie := details(r.id);
        if movie.Some? && ShouldRender(movie.value, sel) {
          var isDuplicate := exists j :: 0 <= j < |movies| && movies[j].movie.imdbID == movie.value.imdbID;
          assert isDuplicate == HasKey(movies, ImdbIdOf, movie.value.imdbID) by {
            if isDuplicate {
              var j :| 0 <= j < |movies| && movies[j].movie.imdbID == movie.value.imdbID;
              assert ImdbIdOf(movies[j]) == movie.value.imdbID;
            }
          }
          if !isDuplicate {
            movies := movies + [Joined(movie.value, r.rating, r.name)];
          }
        }
        i := i + 1;
      }
      assert entries[..i] == entries;
      movies := Arrange(movies, mode);
    }
  }

  /** Entry `j` of the store fetches a record that passes the filter and has imdbID `id`. */
  predicate Shown(entries: seq<Rating>, sel: Selection, details: string -> Option<Movie>, j: int, id: string) {
    && 0 <= j < |entries|
    && details(entries[j].id).Some?
    && ShouldRender(details(entries[j].id).value, sel)
    && details(entries[j].id).value.imdbID == id
  }

  /** `x` is what entry `i` yields, and no earlier entry yields a record with the same imdbID. */
  predicate FirstShownAt(entries: seq<Rating>, sel: Selection, details: string -> Option<Movie>, i: int, x: Joined) {
    && 0 <= i < |entries|
    && details(entries[i].id) == Some(x.movie)
    && ShouldRender(x.movie, sel)
    && x.userRating == entries[i].rating
    && x.name == entries[i].name
    && forall j :: 0 <= j < i ==> !Shown(entries, sel, details, j, x.movie.imdbID)
  }

  /**
   * The list before sorting holds exactly the records some entry fetched
   * successfully, that pass the filter, and whose imdbID no earlier entry
   * yielded; each carries the rating and name of its own entry.
   */
  lemma AccumulatedContents(entries: seq<Rating>, sel: Selection, details: string -> Option<Movie>, x: Joined)
    ensures x in Accumulate(entries, sel, details) <==> exists i :: FirstShownAt(entries, sel, details, i, x)
  {
    var f := Joiner(sel, details);
    KeptAreCandidates(entries, f, ImdbIdOf);
    forall i | 0 <= i < |entries|
      ensures (FirstOfKey(entries, f, ImdbIdOf, i) && f(entries[i]) == Some(x)) <==> FirstShownAt(entries, sel, details, i, x)
    {
      FirstShownIsFirstOfKey(entries, sel, details, i, x);
    }
  }

  lemma FirstShownIsFirstOfKey(entries: seq<Rating>, sel: Selection, details: string -> Option<Movie>, i: int, x: Joined)
    requires 0 <= i < |entries|
    ensures var f := Joiner(sel, details);
      (FirstOfKey(entries, f, ImdbIdOf, i) && f(entries[i]) == Some(x)) <==> FirstShownAt(entries, sel, details, i, x)
  {
    var f := Joiner(sel, details);
    var e := entries[i];
    var id := x.movie.imdbID;
    assert f(e) == JoinFor(e, sel, details);
    // the entries before i that yield a record with imdbID id
    forall j | 0 <= j < i
      ensures CandidateWithKey(entries, f, ImdbIdOf, j, id) <==> Shown(entries, sel, details, j, id)
    {
      assert f(entries[j]) == JoinFor(entries[j], sel, details);
    }
    if f(e) == Some(x) {
      assert details(e.id) == Some(x.movie) && ShouldRender(x.movie, sel);
      assert ImdbIdOf(f(e).value) == id;
    }
    if FirstShownAt(entries, sel, details, i, x) {
      assert JoinFor(e, sel, details) == Some(Joined(x.movie, e.rating, e.name));
      assert x == Joined(x.movie, e.rating, e.name);
      assert ImdbIdOf(f(e).value) == id;
    }
  }

  /** No two records of the list share an imdbID. */
  lemma AccumulatedDistinct(entries: seq<Rating>, sel: Selection, details: string -> Option<Movie>)
    ensures KeysDistinct(Accumulate(entries, sel, details), ImdbIdOf)
  {
    KeptKeysDistinct(entries, Joiner(sel, details), ImdbIdOf);
  }

  /** The records are listed in the order of the entries that yielded them. */
  lemma AccumulatedInStoreOrder(entries: seq<Rating>, sel: Selection, details: string -> Option<Movie>)
    ensures Accumulate(entries, sel, details) == FirstOccurrences(entries, Joiner(sel, details), ImdbIdOf, |entries|)
  {
    KeepFirstIsFirstOccurrences(entries, Joiner(sel, details), ImdbIdOf);
  }

  /** An entry whose fetch fails, or whose record the filter rejects, adds nothing. */
  lemma SkippedEntry(entries: seq<Rating>, e: Rating, sel: Selection, details: string -> Option<Movie>)
    requires details(e.id).None? || !ShouldRender(details(e.id).value, sel)
    ensures Accumulate(entries + [e], sel, details) == Accumulate(entries, sel, details)
  {
    assert (entries + [e])[..|entries|] == entries;
  }

  /**
   * The shown list: no imdbID twice, every record passes the filter, the same
   * records as before sorting, ordered so the comparator never puts a later
   * record first.
   */
  lemma RenderedList(entries: seq<Rating>, sel: Selection, mode: string, details: string -> Option<Movie>)
    ensures var out := Rendered(entries, sel, mode, details);
      && KeysDistinct(out, ImdbIdOf)
      && (forall i :: 0 <= i < |out| ==> ShouldRender(out[i].movie, sel))
      && multiset(out) == multiset(Accumulate(entries, sel, details))
      && (forall i, j :: 0 <= i < j < |out| ==> Compare(out[i], out[j], mode) <= 0.0)
  {
    var acc := Accumulate(entries, sel, details);
    var out := Rendered(entries, sel, mode, details);
    AccumulatedDistinct(entries, sel, details);
    SortKeepsDistinct(acc, KeyOf(mode), ImdbIdOf);
    forall i | 0 <= i < |out| ensures ShouldRender(out[i].movie, sel) {
      assert out[i] in multiset(acc);
      AccumulatedContents(entries, sel, details, out[i]);
    }
  }

  /**
   * Two stored ratings whose records pass the filter, have different imdbIDs
   * and start with years y1 < y2 come out newest first under "latest".
   */
  lemma NewestFirstExample(r1: Rating, r2: Rating, sel: Selection, details: string -> Option<Movie>,
                           m1: Movie, m2: Movie, y1: nat, y2: nat)
    requires details(r1.id) == Some(m1) && ShouldRender(m1, sel) && m1.year == Show(y1)
    requires details(r2.id) == Some(m2) && ShouldRender(m2, sel) && m2.year == Show(y2)
    requires m1.imdbID != m2.imdbID && y1 < y2
    ensures Rendered([r1, r2], sel, Latest, details)
      == [Joined(m2, r2.rating, r2.name), Joined(m1, r1.rating, r1.name)]
  {
    var a, b := Joined(m1, r1.rating, r1.name), Joined(m2, r2.rating, r2.name);
    var f := Joiner(sel, details);
    assert f(r1) == Some(a) && f(r2) == Some(b);
    KeepBoth(r1, r2, f, ImdbIdOf, a, b);
    LeadingYearOfSingle(y1);
    LeadingYearOfSingle(y2);
    SortPair(a, b, KeyOf(Latest));
  }

  lemma KeepBoth<T, U, K>(s0: T, s1: T, cand: T -> Option<U>, key: U -> K, u0: U, u1: U)
    requires cand(s0) == Some(u0) && cand(s1) == Some(u1) && key(u0) != key(u1)
    ensures KeepFirst([s0, s1], cand, key) == [u0, u1]
  {
    assert [s0, s1][..1] == [s0] && [s0][..0] == [];
    assert KeepFirst([s0][..0], cand, key) == [];
    assert KeepFirst([s0], cand, key) == [u0];
    assert !HasKey([u0], key, key(u1));
  }

  lemma SortPair<T>(a: T, b: T, key: T -> real)
    requires key(a) < key(b)
    ensures Sort([a, b], key) == [b, a]
  {
    assert [a, b][1..] == [b] && [b][1..] == [];
    assert Sort([b], key) == [b];
    assert Sort([a, b], key) == Insert(a, [b], key);
  }
}
