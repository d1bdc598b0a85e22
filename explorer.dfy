/** The page state of the game explorer (script.js) and the operations that
    change it. The module-level variables `todosLosJuegos` and `generos`
    become fields of one controller object. So do the parts of the page it
    writes: the options of the genre select, the children of the results
    grid, the counter text and the visibility of the loading message. */
module Explorer {
  import opened Catalog

  /** One step of the page's work, as recorded in the explorer's trace: a
      write of the loading message's visibility, or receiving the
      collection, configuring the genres, or drawing the grid and the
      counter, each with whether the loading message was shown meanwhile. */
  datatype Step = Loading(visible: bool) | Receive(shown: bool) | Configure(shown: bool) | Draw(shown: bool)

  /** Appending five steps one at a time appends the five of them. */
  lemma FiveSteps(t: seq<Step>, a: Step, b: Step, c: Step, d: Step, e: Step)
    ensures t + [a] + [b] + [c] + [d] + [e] == t + [a, b, c, d, e]
  {
  }

  class Explorer {
    /** The whole collection (`todosLosJuegos`). */
    var games: seq<Game>
    /** The distinct sorted genres (`generos`). */
    var genres: seq<string>
    /** The options of the genre select, in order. */
    var options: seq<FilterOption>
    /** The children of the results grid, in order. */
    var grid: seq<GridItem>
    /** The text of the counter. */
    var counter: string
    /** Whether the loading message is displayed. */
    var loadingVisible: bool
    /** The steps the page has taken, oldest first. */
    ghost var trace: seq<Step>

    /** The state when the page starts: both collections empty, nothing
        rendered yet. */
    constructor ()
      ensures games == [] && genres == []
      ensures options == [] && grid == [] && counter == ""
      ensures !loadingVisible && trace == []
    {
      games := [];
      genres := [];
      options := [];
      grid := [];
      counter := "";
      loadingVisible := false;
      trace := [];
    }

    /** mostrarCargando: show or hide the loading message. */
    method ShowLoading(visible: bool)
      modifies this`loadingVisible, this`trace
      ensures loadingVisible == visible
      ensures trace == old(trace) + [Loading(visible)]
    {
      loadingVisible := visible;
      trace := trace + [Loading(visible)];
    }

    /** configurarGeneros: recompute the genres from the collection and
        rebuild the select from scratch, the "all" option first. */
    method ConfigureGenres()
      modifies this`genres, this`options, this`trace
      ensures genres == Facets(games)
      ensures options == OptionsFor(genres)
      ensures trace == old(trace) + [Configure(loadingVisible)]
    {
      var sorted := Facets(games);
      genres := sorted;
      options := [AllOption];
      var i := 0;
      while i < |sorted|
        invariant genres == sorted
        invariant trace == old(trace)
        invariant 0 <= i <= |sorted|
        invariant options == OptionsFor(sorted[..i])
      {
        OptionsForPrefix(sorted, i);
        options := options + [FilterOption(sorted[i], sorted[i])];
        i := i + 1;
      }
      assert sorted[..i] == sorted;
      trace := trace + [Configure(loadingVisible)];
    }

    /** actualizarContadorJuegos: write the counter for `count` games. */
    method UpdateCounter(count: nat)
      modifies this`counter
      ensures counter == CounterLabel(count)
    {
      counter := Decimal(count) + " " + (if count == 1 then "juego" else "juegos");
    }

    /** renderizarJuegos: clear the grid, then show either the placeholder or
        one card per game in order, and update the counter to the number of
        games given. */
    method Render(items: seq<Game>)
      modifies this`grid, this`counter, this`trace
      ensures grid == GridFor(items)
      ensures counter == CounterLabel(|items|)
      ensures trace == old(trace) + [Draw(loadingVisible)]
    {
      grid := [];
      if |items| == 0 {
        grid := [Notice(NoGamesMessage)];
      } else {
        var i := 0;
        while i < |items|
          invariant 0 <= i <= |items|
          invariant trace == old(trace)
          invariant |grid| == i
          invariant forall k :: 0 <= k < i ==> grid[k] == CardItem(CardFor(items[k]))
        {
          grid := grid + [CardItem(CardFor(items[i]))];
          i := i + 1;
        }
      }
      UpdateCounter(|items|);
      trace := trace + [Draw(loadingVisible)];
    }

    /** filtrarJuegosPorGenero: render the games the selected value stands
        for. The collection is only read: `games` is outside the frame. */
    method FilterByGenre(genre: string)
      modifies this`grid, this`counter, this`trace
      ensures grid == GridFor(GamesShown(games, genre))
      ensures counter == CounterLabel(|GamesShown(games, genre)|)
      ensures trace == old(trace) + [Draw(loadingVisible)]
    {
      var shown: seq<Game>;
      if genre == AllGenres {
        shown := games;
      } else {
        shown := SelectGenre(games, genre);
      }
      Render(shown);
    }

    /** The `try` block of buscarJuegos, with the network call replaced by
        its outcome: the collection takes the received list when the
        response was ok and its body a list, and is left alone otherwise. */
    method ReceiveGames(outcome: FetchOutcome)
      modifies this`games, this`trace
      ensures games == CollectionAfter(old(games), outcome)
      ensures trace == old(trace) + [Receive(loadingVisible)]
    {
      var received := Received(outcome);
      if received.Success? {
        games := received.value;
      }
      trace := trace + [Receive(loadingVisible)];
    }

    /** buscarJuegos: show the loading message, try to receive the
        collection, then, whatever happened, configure the genres, render
        the whole collection and hide the loading message. */
    method LoadGames(outcome: FetchOutcome)
      modifies this
      ensures games == CollectionAfter(old(games), outcome)
      ensures Received(outcome).Success? ==> games == Received(outcome).value
      ensures Received(outcome).Failure? ==> games == old(games)
      ensures genres == Facets(games) && options == OptionsFor(genres)
      ensures grid == GridFor(games) && counter == CounterLabel(|games|)
      ensures !loadingVisible
      ensures trace == old(trace) + [Loading(true), Receive(true), Configure(true), Draw(true), Loading(false)]
    {
      ghost var before := trace;
      ShowLoading(true);
      ReceiveGames(outcome);
      ghost var received := games;
      ConfigureGenres();
      Render(games);
      ShowLoading(false);
      assert games == received;
      FiveSteps(before, Loading(true), Receive(true), Configure(true), Draw(true), Loading(false));
    }
  }
}
