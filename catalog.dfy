/** The data side of the game explorer (script.js): the game record, the
    genre facets, the genre filter, the card view-models, the counter label
    and the outcome of fetching the catalogue. Everything here is a value;
    the page state that holds these values is the class in module Explorer. */
module Catalog {
  import opened StringOrder

  datatype Option<T> = None | Some(value: T)
  datatype Result<T, E> = Success(value: T) | Failure(error: E)

  /** One catalogue entry as the API delivers it. */
  datatype Game = Game(title: string, genre: string, thumbnail: string, gameUrl: string)

  // ---------------------------------------------------------------------
  // Genre facets
  // ---------------------------------------------------------------------

  /** The `genre` of every game, in collection order, repeats included. */
  function GenreColumn(games: seq<Game>): (r: seq<string>)
    ensures |r| == |games|
    ensures forall i :: 0 <= i < |games| ==> r[i] == games[i].genre
    ensures forall g :: g in r <==> exists x :: x in games && x.genre == g
  {
    var column := seq(|games|, i requires 0 <= i < |games| => games[i].genre);
    assert forall x :: x in games ==> x.genre in column by {
      forall x | x in games ensures x.genre in column {
        var i :| 0 <= i < |games| && games[i] == x;
        assert column[i] == x.genre;
      }
    }
    column
  }

  /** The distinct genres of the collection in ascending order: the value of
      `Array.from(new Set(games.map(g => g.genre))).sort()`. */
  function Facets(games: seq<Game>): (r: seq<string>)
    ensures |r| <= |games|
    ensures r == [] <==> games == []
  {
    var column := GenreColumn(games);
    var d := Dedupe(column);
    assert games != [] ==> games[0] in games && games[0].genre in d;
    assert |multiset(Sort(d))| == |multiset(d)|;
    Sort(d)
  }

  /** The facet list holds every genre of the collection and nothing else,
      each once, in strictly ascending order. */
  lemma FacetsSpec(games: seq<Game>)
    ensures StrictlySorted(Facets(games))
    ensures forall g :: g in Facets(games) <==> exists x :: x in games && x.genre == g
  {
    var column := GenreColumn(games);
    var d := Dedupe(column);
    var r := Sort(d);
    SortSorted(d);
    DistinctByMultiset(d, r);
    SortedDistinctStrict(r);
    forall g ensures g in r <==> exists x :: x in games && x.genre == g {
      assert g in r <==> g in multiset(d);
      if g in column {
        var i :| 0 <= i < |column| && column[i] == g;
        assert games[i] in games && games[i].genre == g;
      }
      if exists x :: x in games && x.genre == g {
        var x :| x in games && x.genre == g;
        var i :| 0 <= i < |games| && games[i] == x;
        assert column[i] == g;
      }
    }
  }

  /** Any strictly ascending list of exactly the collection's genres is the
      facet list, so the facets do not depend on the sorting algorithm. */
  lemma FacetsCanonical(games: seq<Game>, genres: seq<string>)
    requires StrictlySorted(genres)
    requires forall g :: g in genres <==> exists x :: x in games && x.genre == g
    ensures genres == Facets(games)
  {
    FacetsSpec(games);
    StrictlySortedUnique(genres, Facets(games));
  }

  /** Games of genres RPG, Shooter, RPG give the facets RPG, Shooter. */
  lemma FacetsExample(a: Game, b: Game, c: Game)
    requires a.genre == "RPG" && b.genre == "Shooter" && c.genre == "RPG"
    ensures Facets([a, b, c]) == ["RPG", "Shooter"]
  {
    var genres := ["RPG", "Shooter"];
    assert Le("RPG", "Shooter");
    forall g ensures g in genres <==> exists x :: x in [a, b, c] && x.genre == g {
      if g == "RPG" { assert a in [a, b, c]; }
      if g == "Shooter" { assert b in [a, b, c]; }
    }
    FacetsCanonical([a, b, c], genres);
  }

  // ---------------------------------------------------------------------
  // Filter options
  // ---------------------------------------------------------------------

  /** The value of the synthetic option that selects every game. */
  const AllGenres: string := "all"

  /** One `<option>` of the genre select: what it submits and what it shows. */
  datatype FilterOption = FilterOption(value: string, caption: string)

  /** The option the select is reset to before the genres are added. */
  const AllOption: FilterOption := FilterOption(AllGenres, "Todos los géneros")

  /** The option list built from a genre list: the "all" option first, then
      one option per genre whose value and label are both the genre. */
  function OptionsFor(genres: seq<string>): (r: seq<FilterOption>)
    ensures |r| == |genres| + 1 && r[0] == AllOption
    ensures forall k :: 1 <= k < |r| ==> r[k].value == genres[k - 1] && r[k].caption == genres[k - 1]
  {
    [AllOption] + seq(|genres|, i requires 0 <= i < |genres| => FilterOption(genres[i], genres[i]))
  }

  /** Adding a genre at the end adds its option at the end. */
  lemma OptionsForAppend(genres: seq<string>, g: string)
    ensures OptionsFor(genres + [g]) == OptionsFor(genres) + [FilterOption(g, g)]
  {
    var longer := genres + [g];
    assert OptionsFor(longer)[1..] ==
      seq(|genres|, i requires 0 <= i < |genres| => FilterOption(genres[i], genres[i])) + [FilterOption(g, g)];
  }

  /** Adding the next genre of a list adds its option at the end of the
      options for the genres before it. */
  lemma OptionsForPrefix(genres: seq<string>, i: nat)
    requires i < |genres|
    ensures OptionsFor(genres[..i + 1]) == OptionsFor(genres[..i]) + [FilterOption(genres[i], genres[i])]
  {
    assert genres[..i + 1] == genres[..i] + [genres[i]];
    OptionsForAppend(genres[..i], genres[i]);
  }

  /** The options built from the facets of a collection: "all" first; after it
      one option per genre of the collection, value equal to label, each
      genre once, in ascending order. */
  lemma OptionsForFacets(games: seq<Game>, opts: seq<FilterOption>)
    requires opts == OptionsFor(Facets(games))
    ensures |opts| == |Facets(games)| + 1 && opts[0] == AllOption
    ensures forall k :: 1 <= k < |opts| ==> opts[k].value == opts[k].caption
    ensures forall k :: 1 <= k < |opts| ==> exists x :: x in games && x.genre == opts[k].value
    ensures forall x :: x in games ==> FilterOption(x.genre, x.genre) in opts[1..]
    ensures forall j, k :: 1 <= j < k < |opts| ==>
      Le(opts[j].value, opts[k].value) && opts[j].value != opts[k].value
  {
    OptionsCoverGames(games, opts);
    OptionsFromGames(games, opts);
    OptionsAscending(games, opts);
  }

  /** Every game's genre has an option. */
  lemma OptionsCoverGames(games: seq<Game>, opts: seq<FilterOption>)
    requires opts == OptionsFor(Facets(games))
    ensures forall x :: x in games ==> FilterOption(x.genre, x.genre) in opts[1..]
  {
    var f := Facets(games);
    FacetsSpec(games);
    forall x | x in games ensures FilterOption(x.genre, x.genre) in opts[1..] {
      assert x.genre in f;
      var i :| 0 <= i < |f| && f[i] == x.genre;
      assert opts[1..][i] == opts[i + 1] == FilterOption(x.genre, x.genre);
    }
  }

  /** Every genre option names a genre some game has. */
  lemma OptionsFromGames(games: seq<Game>, opts: seq<FilterOption>)
    requires opts == OptionsFor(Facets(games))
    ensures forall k :: 1 <= k < |opts| ==> exists x :: x in games && x.genre == opts[k].value
  {
    var f := Facets(games);
    FacetsSpec(games);
    forall k | 1 <= k < |opts| ensures exists x :: x in games && x.genre == opts[k].value {
      assert f[k - 1] in f;
    }
  }

  /** The genre options are strictly ascending. */
  lemma OptionsAscending(games: seq<Game>, opts: seq<FilterOption>)
    requires opts == OptionsFor(Facets(games))
    ensures forall j, k :: 1 <= j < k < |opts| ==>
      Le(opts[j].value, opts[k].value) && opts[j].value != opts[k].value
  {
    var f := Facets(games);
    FacetsSpec(games);
    forall j, k | 1 <= j < k < |opts|
      ensures Le(opts[j].value, opts[k].value) && opts[j].value != opts[k].value
    {
      assert opts[j].value == f[j - 1] && opts[k].value == f[k - 1];
    }
  }

  /** Every genre option offered for a collection selects at least one game. */
  lemma OptionsSelectGames(games: seq<Game>, opts: seq<FilterOption>)
    requires opts == OptionsFor(Facets(games))
    ensures forall k :: 1 <= k < |opts| ==> |GamesShown(games, opts[k].value)| > 0
  {
    var f := Facets(games);
    FacetsSpec(games);
    forall k | 1 <= k < |opts| ensures |GamesShown(games, opts[k].value)| > 0 {
      var g := f[k - 1];
      assert g in f;
      var x :| x in games && x.genre == g;
      assert x in GamesShown(games, g);
    }
  }

  // ---------------------------------------------------------------------
  // Filtering
  // ---------------------------------------------------------------------

  /** The games whose genre is exactly `genre`, in collection order (the
      `.filter(juego => juego.genre === genero)` of the source). */
  function SelectGenre(games: seq<Game>, genre: string): (r: seq<Game>)
    ensures |r| <= |games|
    ensures forall x :: x in r ==> x in games && x.genre == genre
  {
    if games == [] then []
    else (if games[0].genre == genre then [games[0]] else []) + SelectGenre(games[1..], genre)
  }

  /** Each game of the genre is kept as often as it occurs; no other game is. */
  lemma {:induction false} SelectGenreCount(games: seq<Game>, genre: string)
    ensures forall x :: multiset(SelectGenre(games, genre))[x] ==
                        (if x.genre == genre then multiset(games)[x] else 0)
  {
    if games != [] {
      SelectGenreCount(games[1..], genre);
      assert games == [games[0]] + games[1..];
    }
  }

  /** Filtering a concatenation filters each part: the order of the collection
      is kept. */
  lemma {:induction false} SelectGenreConcat(a: seq<Game>, b: seq<Game>, genre: string)
    ensures SelectGenre(a + b, genre) == SelectGenre(a, genre) + SelectGenre(b, genre)
  {
    if a == [] {
      assert a + b == b;
      assert SelectGenre(a, genre) + SelectGenre(b, genre) == SelectGenre(b, genre);
    } else {
      SelectGenreConcat(a[1..], b, genre);
      SelectGenreConcatStep(a, b, genre);
    }
  }

  /** The inductive step of `SelectGenreConcat`: the first game of `a` is
      decided on the same way in `a` and in `a + b`. */
  lemma SelectGenreConcatStep(a: seq<Game>, b: seq<Game>, genre: string)
    requires a != []
    requires SelectGenre(a[1..] + b, genre) == SelectGenre(a[1..], genre) + SelectGenre(b, genre)
    ensures SelectGenre(a + b, genre) == SelectGenre(a, genre) + SelectGenre(b, genre)
  {
    var head := if a[0].genre == genre then [a[0]] else [];
    assert (a + b)[0] == a[0] && (a + b)[1..] == a[1..] + b;
    ConcatAssociative(head, SelectGenre(a[1..], genre), SelectGenre(b, genre));
  }

  /** Proof helper: concatenation of game lists is associative. Stated on
      its own so that the step above need not search for it. */
  lemma ConcatAssociative(x: seq<Game>, y: seq<Game>, z: seq<Game>)
    ensures x + (y + z) == (x + y) + z
  {
  }

  /** The filter yields nothing exactly when no game has the genre. */
  lemma {:induction false} SelectGenreEmpty(games: seq<Game>, genre: string)
    ensures SelectGenre(games, genre) == [] <==> forall x :: x in games ==> x.genre != genre
  {
    SelectGenreCount(games, genre);
    if SelectGenre(games, genre) == [] {
      forall x | x in games ensures x.genre != genre {
        assert x in multiset(games);
      }
    }
  }

  /** The filter returns the collection itself exactly when every game has
      the genre. */
  lemma {:induction false} SelectGenreAll(games: seq<Game>, genre: string)
    ensures SelectGenre(games, genre) == games <==> forall x :: x in games ==> x.genre == genre
  {
    if games != [] {
      SelectGenreAll(games[1..], genre);
      assert forall x :: x in games <==> x == games[0] || x in games[1..];
    }
  }

  /** The games displayed for a selected filter value: the whole collection
      for "all", otherwise the games of exactly that genre. */
  function GamesShown(games: seq<Game>, selected: string): (r: seq<Game>)
    ensures selected == AllGenres ==> r == games
    ensures selected != AllGenres ==>
      forall x :: x in r <==> x in games && x.genre == selected
  {
    if selected == AllGenres then games
    else
      SelectGenreCount(games, selected);
      assert forall x :: x in games ==> x in multiset(games);
      SelectGenre(games, selected)
  }

  // ---------------------------------------------------------------------
  // Cards and the grid
  // ---------------------------------------------------------------------

  /** The window a card link opens in, and the relation that keeps the opened
      page from reaching back to this one. */
  const NewTab: string := "_blank"
  const NoOpener: string := "noopener noreferrer"

  /** The placeholder shown instead of cards when there is nothing to show. */
  const NoGamesMessage: string := "No se encontraron juegos. La API puede estar fuera de servicio."

  /** The content of one card: a link wrapping a thumbnail, a title and a
      genre line. */
  datatype Card = Card(
    href: string, target: string, rel: string,
    imageSrc: string, imageAlt: string,
    heading: string, genreText: string)

  /** One child of the results grid. */
  datatype GridItem = Notice(text: string) | CardItem(card: Card)

  /** The game a card displays, read back from its fields. */
  function GameOnCard(c: Card): Game
  {
    Game(c.heading, c.genreText, c.imageSrc, c.href)
  }

  /** The card for one game (crearTarjetaJuego): it loses nothing of the game,
      uses the title as the image's alternative text, and opens in a new tab
      without opener or referrer. */
  function CardFor(g: Game): (c: Card)
    ensures GameOnCard(c) == g
    ensures c.imageAlt == c.heading
    ensures c.target == NewTab && c.rel == NoOpener
  {
    Card(g.gameUrl, NewTab, NoOpener, g.thumbnail, g.title, g.title, g.genre)
  }

  /** What the grid holds after rendering `items`: the single placeholder for
      an empty list, else one card per item in list order. */
  function GridFor(items: seq<Game>): (r: seq<GridItem>)
    ensures |r| >= 1
    ensures r == [Notice(NoGamesMessage)] <==> items == []
    ensures items != [] ==> |r| == |items|
    ensures items != [] ==> forall k :: 0 <= k < |r| ==> r[k] == CardItem(CardFor(items[k]))
    ensures items != [] ==> forall k :: 0 <= k < |r| ==> r[k].CardItem? && GameOnCard(r[k].card) == items[k]
  {
    if |items| == 0 then [Notice(NoGamesMessage)]
    else
      var cards := seq(|items|, i requires 0 <= i < |items| => CardItem(CardFor(items[i])));
      assert cards[0].CardItem?;
      cards
  }

  /** The games a grid displays, in grid order. */
  function GamesOnGrid(grid: seq<GridItem>): seq<Game>
  {
    if grid == [] then []
    else (if grid[0].CardItem? then [GameOnCard(grid[0].card)] else []) + GamesOnGrid(grid[1..])
  }

  /** The number of placeholders in a grid. */
  function NoticeCount(grid: seq<GridItem>): nat
  {
    if grid == [] then 0 else (if grid[0].Notice? then 1 else 0) + NoticeCount(grid[1..])
  }

  lemma {:induction false} CardsShowGames(items: seq<Game>)
    ensures GamesOnGrid(seq(|items|, i requires 0 <= i < |items| => CardItem(CardFor(items[i])))) == items
    ensures NoticeCount(seq(|items|, i requires 0 <= i < |items| => CardItem(CardFor(items[i])))) == 0
  {
    var cards := seq(|items|, i requires 0 <= i < |items| => CardItem(CardFor(items[i])));
    if items != [] {
      CardsShowGames(items[1..]);
      assert cards[1..] == seq(|items[1..]|, i requires 0 <= i < |items[1..]| => CardItem(CardFor(items[1..][i])));
      assert items == [items[0]] + items[1..];
    }
  }

  /** Reading the rendered grid back gives exactly the rendered list, in
      order; the placeholder appears, once, exactly when the list is empty. */
  lemma GridShowsItems(items: seq<Game>)
    ensures GamesOnGrid(GridFor(items)) == items
    ensures NoticeCount(GridFor(items)) == if items == [] then 1 else 0
    ensures items == [] ==> GridFor(items) == [Notice(NoGamesMessage)]
  {
    if items != [] { CardsShowGames(items); }
  }

  // ---------------------------------------------------------------------
  // Counter label
  // ---------------------------------------------------------------------

  predicate IsDigit(c: char)
  {
    '0' <= c <= '9'
  }

  predicate AllDigits(s: string)
  {
    forall i :: 0 <= i < |s| ==> IsDigit(s[i])
  }

  /** The decimal numeral of `n`, as a template literal prints an integer. */
  function Decimal(n: nat): (r: string)
    ensures |r| > 0 && AllDigits(r)
    ensures |r| > 1 ==> r[0] != '0'
  {
    if n < 10 then [(48 + n) as char]
    else Decimal(n / 10) + [(48 + n % 10) as char]
  }

  /** The value of a decimal numeral. */
  function DecimalValue(s: string): nat
    requires AllDigits(s)
  {
    if s == [] then 0
    else 10 * DecimalValue(s[..|s| - 1]) + (s[|s| - 1] as int - 48)
  }

  lemma {:induction false} DecimalRoundTrip(n: nat)
    ensures DecimalValue(Decimal(n)) == n
  {
    if n >= 10 {
      DecimalRoundTrip(n / 10);
      var d := Decimal(n);
      assert d[..|d| - 1] == Decimal(n / 10);
    }
  }

  /** The unit word: singular for exactly one game, plural otherwise. */
  function Unit(count: nat): (r: string)
    ensures r == "juego" <==> count == 1
    ensures r == "juegos" <==> count != 1
  {
    if count == 1 then "juego" else "juegos"
  }

  /** The text of the counter for `count` games (actualizarContadorJuegos):
      it opens with a digit and ends in the plural `s` exactly when the count
      is not 1. */
  function CounterLabel(count: nat): (r: string)
    ensures |r| > 0 && IsDigit(r[0])
    ensures r[|r| - 1] == 's' <==> count != 1
  {
    Decimal(count) + " " + Unit(count)
  }

  /** The text of `s` before its first space and the text after it. */
  function SplitAtSpace(s: string): (string, string)
  {
    if s == [] then ([], [])
    else if s[0] == ' ' then ([], s[1..])
    else
      var (front, back) := SplitAtSpace(s[1..]);
      ([s[0]] + front, back)
  }

  lemma {:induction false} SplitAtSpaceOf(front: string, back: string)
    requires forall i :: 0 <= i < |front| ==> front[i] != ' '
    ensures SplitAtSpace(front + " " + back) == (front, back)
  {
    if front != [] {
      SplitAtSpaceOf(front[1..], back);
      var s := front + " " + back;
      assert s[0] == front[0] && s[0] != ' ';
      assert s[1..] == front[1..] + " " + back;
      assert SplitAtSpace(s) == ([s[0]] + front[1..], back);
      assert [front[0]] + front[1..] == front;
    }
  }

  /** The count a counter label shows, when the text before its first space is
      a numeral. */
  function CountInLabel(text: string): Option<nat>
  {
    var front := SplitAtSpace(text).0;
    if |front| > 0 && AllDigits(front) then Some(DecimalValue(front)) else None
  }

  /** The unit word a counter label shows. */
  function UnitInLabel(text: string): string
  {
    SplitAtSpace(text).1
  }

  /** The counter reads back as the count it was built from, followed by
      "juego" exactly when the count is 1 and "juegos" exactly otherwise. */
  lemma CounterLabelReadsBack(count: nat)
    ensures CountInLabel(CounterLabel(count)) == Some(count)
    ensures UnitInLabel(CounterLabel(count)) == "juego" <==> count == 1
    ensures UnitInLabel(CounterLabel(count)) == "juegos" <==> count != 1
  {
    SplitAtSpaceOf(Decimal(count), Unit(count));
    DecimalRoundTrip(count);
  }

  // ---------------------------------------------------------------------
  // Fetching the catalogue
  // ---------------------------------------------------------------------

  /** The parsed body of a response. */
  datatype Body = Unparsable | NotAList | GameList(games: seq<Game>)

  /** What the network call produced: no response at all, or a response whose
      status is ok or not, with its body. */
  datatype FetchOutcome = Rejected | Response(ok: bool, body: Body)

  /** Why a load failed. */
  datatype LoadError = NetworkFailure | BadStatus | InvalidJson | NotAnArray

  /** The decisions of the `try` block of buscarJuegos: the status is checked
      before the body is parsed, and the parsed body must be a list. */
  function Received(outcome: FetchOutcome): (r: Result<seq<Game>, LoadError>)
    ensures r.Success? <==> outcome.Response? && outcome.ok && outcome.body.GameList?
    ensures r.Success? ==> r.value == outcome.body.games
    ensures r == Failure(BadStatus) <==> outcome.Response? && !outcome.ok
  {
    match outcome
    case Rejected => Failure(NetworkFailure)
    case Response(ok, body) =>
      if !ok then Failure(BadStatus)
      else match body
        case Unparsable => Failure(InvalidJson)
        case NotAList => Failure(NotAnArray)
        case GameList(games) => Success(games)
  }

  /** The collection after a load: the received list on success, otherwise the
      prior collection, unchanged. */
  function CollectionAfter(prior: seq<Game>, outcome: FetchOutcome): (r: seq<Game>)
    ensures r == prior || (outcome.Response? && outcome.ok && outcome.body.GameList? && r == outcome.body.games)
    ensures outcome.Response? && outcome.ok && outcome.body.GameList? ==> r == outcome.body.games
  {
    match Received(outcome)
    case Success(games) => games
    case Failure(_) => prior
  }

  /** After a failed first load, the page shows only the "all" option, the
      placeholder and the count 0 with the plural unit. */
  lemma FailedFirstLoadView(outcome: FetchOutcome)
    requires Received(outcome).Failure?
    ensures OptionsFor(Facets(CollectionAfter([], outcome))) == [AllOption]
    ensures GridFor(CollectionAfter([], outcome)) == [Notice(NoGamesMessage)]
    ensures CounterLabel(|CollectionAfter([], outcome)|) == "0 juegos"
  {
    assert Decimal(0) == "0";
  }
}
