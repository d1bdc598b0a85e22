# Game explorer and carousel: a verified model

This project models the logic of two browser scripts:

- **script.js** is a free-to-play game explorer. It loads a catalogue of games once. It offers the distinct genres of those games as options of a select control, with an "all" option first. It renders one card per game, or a placeholder when there is nothing to show. It keeps a counter ("1 juego", "7 juegos"). When the user picks a genre, it filters the in-memory catalogue and renders again.
- **JS/JScript.js** is an image carousel and a hamburger menu. "Next" and "prev" buttons move a position among `n` images with wrap-around. The strip is then translated by `-index*100` percent. A click on the hamburger toggles a class on the button and a class on the menu.

The model has four modules:

- `StringOrder` (string_order.dfy) covers the order that JavaScript's default `sort()` uses on strings and a sort by that order. It also covers the first-occurrence de-duplication that `Array.from(new Set(xs))` performs. It proves that the sorted, de-duplicated list is the only strictly ascending list of those strings.
- `Catalog` (catalog.dfy) holds the values: the game record, the genre facets, the option list, the genre filter, cards and the grid as view-model records, the counter label, and the outcome of the network call as a datatype.
- `Explorer` (explorer.dfy) holds the page state. The module variables `todosLosJuegos` and `generos`, and the parts of the page the script writes, are fields of one class. Its methods are `configurarGeneros`, `renderizarJuegos`, `filtrarJuegosPorGenero`, `actualizarContadorJuegos`, `mostrarCargando` and `buscarJuegos`. Every method except `ShowLoading`, which only records the loading message's visibility, is proved against the functions of `Catalog`. A ghost trace records the steps the page takes: each write of the loading message's visibility, and each receiving of the collection, configuring of the genres and drawing of the grid together with whether the loading message was shown meanwhile. None of those three steps has the message's visibility in its frame. The trace fixes the order of the steps of `buscarJuegos` and that the message is visible during the three middle ones.
- `Carousel` (carousel.dfy) holds the carousel and menu state. JavaScript's truncating `%` is written out as `JsRem`. A `Carousel` class keeps the position and the drawn offset, and a `HamburgerMenu` class keeps the two toggled flags.

The network call is an input of `LoadGames`: an abstract `FetchOutcome`. It is either no response or a response whose status is ok or not. A response body is unparsable, not a list, or a list of games.

The comment in the `catch` block of `buscarJuegos` (script.js:59-60) says the list of games stays empty after a failed load. The code achieves this only by skipping the assignment at script.js:56, so the collection keeps its prior value, which is empty on the page's single load. `ReceiveGames`, `LoadGames` and `CollectionAfter` model the code.

## Model

| member | source | states |
|---|---|---|
| StringOrder.Le | script.js:76 | the order of `sort()` puts a prefix before the longer string, and a non-empty string sorts before or equal to another only if that one is non-empty and its first character is not smaller |
| StringOrder.LeReflexive | script.js:76 | the string order used by `sort()` relates every string to itself |
| StringOrder.LeTotal | script.js:76 | any two strings are comparable under the sort order |
| StringOrder.LeAntisymmetric | script.js:76 | two strings that each sort before or equal to the other are equal |
| StringOrder.LeTransitive | script.js:76 | the sort order is transitive |
| StringOrder.Insert | script.js:76 | inserting one string into a list gives a list one longer that holds the same strings plus the new one |
| StringOrder.Sort | script.js:76 | sorting permutes the list: the multiset of strings is unchanged |
| StringOrder.InsertSorted | script.js:76 | inserting into an ascending list keeps it ascending |
| StringOrder.SortSorted | script.js:76 | the sorted list is in ascending order |
| StringOrder.DistinctByMultiset | script.js:75-76 | a permutation of a list without repeats has no repeats, so sorting the de-duplicated genres keeps them unique |
| StringOrder.Dedupe | script.js:75 | the `Set` of the genres holds exactly the strings of the input, each once, and is no longer than the input |
| StringOrder.FirstIndex | script.js:75 | the first position of a string in a list holds that string and no earlier position does |
| StringOrder.FirstIndexAt | script.js:75 | a position holding a string with no earlier occurrence is its first position |
| StringOrder.FirstIndexAppend | script.js:75 | appending to a list does not move the first position of a string it already holds |
| StringOrder.DedupeFirstOccurrenceOrder | script.js:75 | the `Set` iterates its genres in the order of their first occurrence in the collection |
| StringOrder.StrictlySortedUnique | script.js:76 | two strictly ascending lists with the same strings are equal, so the genre list does not depend on the sorting algorithm |
| Catalog.GenreColumn | script.js:75 | `map(juego => juego.genre)` gives one genre per game, the genre of the game at the same position, and so exactly the genres some game has |
| Catalog.Facets | script.js:75-76 | `generos` has no more entries than the collection has games, and is empty exactly when the collection is |
| Catalog.FacetsSpec | script.js:75-76 | `generos` contains every genre of the collection and nothing else, has no duplicates, and is in strictly ascending order |
| Catalog.FacetsCanonical | script.js:75-76 | any strictly ascending list of exactly the collection's genres equals the computed genre list |
| Catalog.FacetsExample | script.js:75-76 | games of genres RPG, Shooter, RPG give the genres RPG, Shooter |
| Catalog.OptionsFor | script.js:79-87 | the option list is the "all" option followed by one option per genre, in genre order, whose value and text are the genre |
| Catalog.OptionsForAppend | script.js:82-87 | appending one option per genre, one at a time, builds the option list of the genres appended so far |
| Catalog.OptionsForPrefix | script.js:82-87 | the option for the next genre of the list goes after the options for the genres before it |
| Catalog.OptionsForFacets | script.js:73-88 | the options built for a collection start with "all"; after it come one option per genre of the collection, value equal to text, each genre once and in ascending order |
| Catalog.OptionsCoverGames | script.js:75-87 | every game's genre is offered as an option whose value and text are that genre |
| Catalog.OptionsFromGames | script.js:75-87 | every genre option names a genre that some game has |
| Catalog.OptionsAscending | script.js:76-87 | the genre options are in strictly ascending order |
| Catalog.OptionsSelectGames | script.js:79-87 | every genre option offered for a collection selects at least one game when chosen |
| Catalog.SelectGenre | script.js:166 | the filter result is no longer than the collection and holds only games of the collection with exactly that genre |
| Catalog.SelectGenreCount | script.js:166 | each game of the genre is kept as many times as it occurs in the collection, and no other game is kept |
| Catalog.SelectGenreConcat | script.js:166 | filtering a concatenation filters each part, so the collection's order is kept |
| Catalog.SelectGenreConcatStep | script.js:166 | the first game of a list is kept or dropped the same way whatever follows it |
| Catalog.SelectGenreEmpty | script.js:166 | the filter result is empty exactly when no game has the genre, so an absent genre gives an empty result and no error |
| Catalog.SelectGenreAll | script.js:166 | the filter returns the collection itself exactly when every game has the genre |
| Catalog.GamesShown | script.js:160-168 | the value "all" shows the whole collection unchanged; any other value shows exactly the games whose genre is that exact string |
| Catalog.CardFor | script.js:115-153 | a card carries the game's URL, thumbnail, title (as image alt and as title text) and genre; the game can be read back from it; it opens with target `_blank` and rel `noopener noreferrer` |
| Catalog.GridFor | script.js:94-105 | the grid holds at least one item; it is the single placeholder exactly when there are no games; otherwise it holds the card `CardFor` builds for each game, in order, so every card opens in a new tab without opener or referrer and the game reads back from it |
| Catalog.CardsShowGames | script.js:101-104 | one card per game, in input order, and no placeholder among the cards |
| Catalog.GridShowsItems | script.js:94-105 | reading the grid back gives exactly the rendered list in order; the single placeholder appears exactly when the list is empty |
| Catalog.Decimal | script.js:186 | the count is printed as a non-empty decimal numeral without leading zeros |
| Catalog.DecimalRoundTrip | script.js:186 | the printed numeral reads back as the count |
| Catalog.SplitAtSpaceOf | script.js:186 | a label made of a space-free front, a space and a back splits back into that front and back |
| Catalog.Unit | script.js:185 | the unit word is `juego` exactly when the count is 1 and `juegos` exactly otherwise |
| Catalog.CounterLabel | script.js:184-186 | the counter text starts with a digit and ends in the plural `s` exactly when the count is not 1 |
| Catalog.CounterLabelReadsBack | script.js:184-186 | the counter text reads back as the count, followed by `juego` exactly when the count is 1 and `juegos` exactly otherwise |
| Catalog.Received | script.js:42-56 | the load succeeds exactly when the response is ok and its body is a list, and the result is then that list; a non-ok status fails before the body is looked at |
| Catalog.CollectionAfter | script.js:56-61 | the collection is replaced wholesale by the received list on success and otherwise keeps its prior value; it is never partly replaced |
| Catalog.FailedFirstLoadView | script.js:58-66 | after a failed first load the select holds only the "all" option, the grid only the placeholder, and the counter reads `0 juegos` |
| Explorer.Explorer.constructor | script.js:8-9 | the page starts with an empty collection, an empty genre list and an empty trace |
| Explorer.Explorer.ShowLoading | script.js:176-178 | the loading message's visibility becomes the argument, and the write is appended to the trace |
| Explorer.Explorer.ConfigureGenres | script.js:73-88 | `generos` becomes the sorted distinct genres of the collection and the select is rebuilt from scratch as the options for `generos`; the result does not depend on the previous options, so a second call on the same collection gives the same options; the trace gains one configuring step that records the loading message's visibility |
| Explorer.Explorer.UpdateCounter | script.js:184-187 | the counter becomes the label for the given count |
| Explorer.Explorer.Render | script.js:94-108 | the grid becomes the placeholder for an empty list or one card per game in order, and the counter the label for the list's length; the trace gains one drawing step that records the loading message's visibility |
| Explorer.Explorer.FilterByGenre | script.js:160-170 | the grid and the counter show the games the selected value stands for; the collection is outside the method's frame, so it is never changed; the trace gains one drawing step that records the loading message's visibility |
| Explorer.Explorer.ReceiveGames | script.js:40-61 | the `try` block leaves the collection as `CollectionAfter` says: the received list on success, the prior value otherwise; the trace gains one receiving step that records the loading message's visibility |
| Explorer.Explorer.LoadGames | script.js:37-68 | the collection follows `CollectionAfter`; the genres are always configured from it and it is always rendered; the trace gains exactly these steps, in this order: show the loading message, receive, configure the genres, draw, hide the loading message, with the message recorded as shown during receiving, configuring and drawing |
| Carousel.JsRem | JS/JScript.js:20-24 | JavaScript's `%` on a non-negative dividend lies in `[0, n)`, on a non-positive one in `(-n, 0]`, and the dividend minus the remainder is a multiple of `n`; with the ranges this determines the truncated remainder |
| Carousel.MultipleMod | JS/JScript.js:20-24 | a multiple of `n` leaves remainder 0 |
| Carousel.Next | JS/JScript.js:20 | `(index + 1) % images.length` of a valid position is a valid position |
| Carousel.Prev | JS/JScript.js:24 | `(index - 1 + images.length) % images.length` of a valid position is a valid position |
| Carousel.Offset | JS/JScript.js:17 | the strip is translated by a whole number of images, not at all exactly on image 0, and never to the right from a non-negative position |
| Carousel.StepsStayInRange | JS/JScript.js:19-25 | from a valid position, both `next` and `prev` give a position in `[0, n)` |
| Carousel.NextStep | JS/JScript.js:20 | `next` moves one image forward and wraps from the last image to the first |
| Carousel.PrevStep | JS/JScript.js:24 | `prev` moves one image back and wraps from the first image (0) to the last (n-1) |
| Carousel.PrevUndoesNext | JS/JScript.js:19-25 | `prev` after `next`, and `next` after `prev`, both restore the position |
| Carousel.NextTimesAdvance | JS/JScript.js:20 | `k <= n` presses of `next` advance by `k` images, wrapping once past the last one |
| Carousel.NextFullCycle | JS/JScript.js:20 | `n` presses of `next` return to the starting image |
| Carousel.OffsetRange | JS/JScript.js:17 | the drawn offset `-index*100` of a valid position lies in `(-100*n, 0]` |
| Carousel.Carousel.constructor | JS/JScript.js:14 | the carousel starts on image 0 |
| Carousel.Carousel.Update | JS/JScript.js:16-18 | the drawn offset becomes `-index*100` |
| Carousel.Carousel.ClickNext | JS/JScript.js:19-22 | the position becomes `(index+1) % n`, stays in range, and the offset is redrawn to match |
| Carousel.Carousel.ClickPrev | JS/JScript.js:23-26 | the position becomes `(index-1+n) % n`, stays in range, and the offset is redrawn to match |
| Carousel.Toggled | JS/JScript.js:10-11 | a click flips both the button's `active` class and the menu's `open` class |
| Carousel.ToggleProperties | JS/JScript.js:9-12 | flags that were equal stay equal after a click; two clicks restore the state |
| Carousel.HamburgerMenu.constructor | JS/JScript.js:9-12 | the menu starts with both the `active` and the `open` class absent (the page markup is not modelled, see Left out) |
| Carousel.HamburgerMenu.Click | JS/JScript.js:9-12 | the click handler's new state is the toggled old state |

## Left out

- The network call is left out: `fetch`, the relay URL, the numeric HTTP status and `respuesta.json()`. `LoadGames` receives their outcome as a `FetchOutcome` value.
- The model does not check that the elements of a received list are game records with `title`, `genre`, `thumbnail` and `game_url` strings. Every element of a list body is a `Game`.
- `console.error` logging of a failed load is left out. It is a diagnostic side effect only.
- DOM construction is left out: `createElement`, `innerHTML`, `appendChild`, class names, and the `style.display` and `style.transform` strings. They are modelled as option, card and grid records, a visibility flag and an integer offset.
- Event-listener registration and `DOMContentLoaded` dispatch are left out. `LoadGames`, `FilterByGenre` and the click methods are the handlers' bodies.
- Asynchrony is left out. `LoadGames` runs as one step, so a filter change that arrives while the load is in flight is not modelled.
- The page markup present before the first load is not part of this model. The `Explorer` constructor starts with no options, an empty grid and an empty counter. `HamburgerMenu` starts with both classes absent.
- Carousel.Carousel.constructor: it requires at least one image. With no images, JavaScript's `% 0` yields NaN, and that case is not modelled.
- StringOrder.Le: it compares Dafny characters (Unicode scalar values). JavaScript compares UTF-16 code units, which orders characters outside the Basic Multilingual Plane differently. Locale-aware ordering is not involved.
