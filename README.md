# Jeopardy board: a verified model

This is a Dafny model of the logic in a browser trivia game. The game fetches a list of
categories, shuffles a copy of it with Fisher–Yates, and keeps the ids of the first six. For
each id it fetches the category and samples five clues, which it turns into clue objects
`{question, answer, showing: null}`. These are pushed both into the module-level `categories`
list and into the `gameGrid` list. The table body gets five cells per category, one per row.
A click on a cell moves that clue's `showing` from `null` to `"question"` to `"answer"` and
shows the matching text.

Modules, one per concern:

- `Shuffle` (shuffle.dfy): `fisherYatesShuffle` as an in-place array method. The method is
  proved against the pure function `Shuffled`. Lemmas show that the result is a permutation,
  that every ordering can be reached, and that on an input without repeated values different
  draws give different orderings.
- `Api` (api.dfy): what the remote service returns, and what `_.sampleSize` promises.
- `CategorySelection` (selection.dfy): `getRandomCategoryIds`.
- `Reveal` (reveal.dfy): the three-state `showing` machine as pure functions, with lemmas
  about repeated clicks.
- `Board` (board.dfy): the `Clue` and `Game` classes (`categories`, `gameGrid`),
  `getCategory`, `fillTable`, the body-cell coordinates and `handleClick`.
- `Restart` (restart.dfy): two games in a row on one page, as written and as corrected.
- `Seqs` (seqs.dfy): `Distinct`, used for ids, clue objects and cells.
- `Wrappers` (wrappers.dfy): `Option`.

Inputs stand in for what the program gets from outside:

- `Math.random`: a sequence `draws`, where `draws[i]` is the index drawn when the loop is at
  `i`, with `0 <= draws[i] <= i`.
- The listing request: a `Response` that is either the fetched array or a rejection.
- The category requests: a map from id to category body. An id the map lacks makes the
  request throw.
- `_.sampleSize`: a `sampler` function. Each sample it returns has `min(5, n)` clues taken
  from distinct positions of the fetched list.

jeopardy/jeopardy.js is an earlier copy of jeopardy.js. Its `fisherYatesShuffle`
(jeopardy/jeopardy.js:59-65), id selection (jeopardy/jeopardy.js:34-56) and `getCategory`
mapping and push (jeopardy/jeopardy.js:80-96) are the same code as in jeopardy.js. The same
members model both copies; the table cites one copy per member.

Behaviour of the code that a reader might not expect, modelled as written:

- A failed listing request gives an empty id list, not an error, and so an empty board.
- Fewer than six listed categories give fewer ids, not an error.
- A category with fewer than five clues gives a shorter clue list. Its cells in the lower
  rows have no clue behind them: a click there throws a TypeError (`HandleClick` returns
  `TypeError`).
- A rejected category request leaves the categories loaded so far in `categories` and
  `gameGrid`, and nothing is rendered.
- The board is not replaced as a whole on restart: `gameGrid` keeps the earlier entries (see
  Findings).

## Model

| member | source | states |
|---|---|---|
| `Shuffle.Shuffled` | jeopardy.js:61-67 | The shuffled array has the input's length; arrays of length 0 or 1 come back unchanged |
| `Shuffle.FisherYatesShuffle` | jeopardy.js:61-67 | Swaps in place with `0 <= j <= i` for `i` from the last index down to 1, and returns the same array. Its new contents are `Shuffled` of the old ones and hold the same multiset of elements |
| `Shuffle.ShuffledIsPermutation` | jeopardy/jeopardy.js:59-65 | For all inputs and valid draws, the output has the same multiset as the input, so it is a permutation |
| `Shuffle.ShuffleDownIsPermutation` | jeopardy.js:62-65 | Each remaining run of the countdown loop preserves the multiset of elements |
| `Shuffle.ShuffleDownKeepsAbove` | jeopardy.js:62-64 | Once the loop has moved below index `k`, cell `k` is never touched again |
| `Shuffle.ShuffledKeepsDistinct` | jeopardy.js:61-67 | An input without repeated values gives an output without repeated values |
| `Shuffle.ShuffledInjective` | jeopardy.js:62-64 | On an input without repeated values, two valid draw sequences that produce the same order are equal |
| `Shuffle.EveryPermutationReachable` | jeopardy.js:62-64 | Every reordering of the input (every sequence with the same multiset) is produced by some valid draw sequence |
| `CategorySelection.IdsOfShuffled` | jeopardy.js:45-50 | Shuffling the categories and then taking `.id` gives the same result as shuffling the ids |
| `CategorySelection.ChosenIdsProperties` | jeopardy/jeopardy.js:43-48 | The selection has `min(NUM_CATEGORIES, n)` ids, each the id of a fetched category, and none repeats when the fetched ids are distinct |
| `CategorySelection.GetRandomCategoryIds` | jeopardy.js:36-58 | A rejected listing gives `[]`. Otherwise the result is the first `min(6, n)` ids of the shuffled copy, all fetched ids, and distinct when the fetched ids are. The fetched array is never modified (no modifies clause), since the copy is what gets shuffled |
| `Reveal.Next` | jeopardy.js:164-173 | A click raises the reveal rank by exactly one, except that `"answer"` stays `"answer"` |
| `Reveal.Display` | jeopardy.js:145-151 | A click shows the question from `null`, the answer from `"question"`, and nothing (exactly) from `"answer"` |
| `Reveal.ClicksNeverRegress` | jeopardy.js:164-173 | After more clicks the rank is never lower: `showing` never goes back |
| `Reveal.AnswerIsTerminal` | jeopardy.js:170-173 | From `"answer"`, any number of clicks leave the state unchanged and show nothing |
| `Reveal.ClicksFromHidden` | jeopardy.js:145-151 | From `null`, the first click shows the question, the second shows the answer, later clicks show nothing, and two clicks reach `"answer"` |
| `Board.Clue.constructor` | jeopardy.js:87-91 | A mapped clue carries the given question and answer and starts with `showing` null |
| `Board.Clue.Click` | jeopardy.js:164-173 | `showing` becomes `Next(old showing)` and the returned text is `Display(old showing)`; `question` and `answer` are `const` and never change |
| `Board.MakeClues` | jeopardy.js:87-91 | One new, distinct, hidden clue object per sampled clue, with the same question and answer, in order |
| `Board.Loadable` | jeopardy.js:121-124 | The number of leading ids the service answers: all ids before it are answered, and the id at that position is rejected if there is one |
| `Board.BodyGridShape` | jeopardy.js:134-142 | The body has `rows * numCats` cells, each with `catIdx < numCats` and `clueIdx < rows`; every coordinate appears once |
| `Board.BodyCells` | jeopardy.js:134-142 | The nested row/column loops produce exactly the row-major body grid of `NUM_QUESTIONS_PER_CAT` rows: `5 * numCats` cells, all in range, every coordinate present |
| `Board.Game.constructor` | jeopardy.js:24-29 | `categories` and `gameGrid` start empty |
| `Board.Game.GetCategory` | jeopardy.js:82-98 | A rejected request throws and changes nothing. Otherwise `categories` grows by exactly the returned `{title, clues}`. The title is copied, and there are `min(5, n)` new hidden clues copied from the sample, each a clue of the fetched category |
| `Board.Game.LoadOne` | jeopardy.js:122-123 | One pass of the loop: a rejected request changes neither `categories` nor `gameGrid`. Otherwise the category built from the response and its sample is appended to `categories`, its clue list is appended to `gameGrid`, and its clues are new and hidden |
| `Board.Game.LoadCategories` | jeopardy.js:121-124 | One category per answered id, in order, each built from its own response and sample and each also pushed onto `gameGrid`; all their clues are new objects and hidden. The loop stops at the first rejected request, keeping what was pushed so far |
| `Board.Game.FillTable` | jeopardy.js:108-143 | `categories` is emptied and refilled from the chosen ids; `gameGrid` gains their clue lists and is never emptied. So `gameGrid` matches `categories` exactly when it was empty before the call. Rendered cells stay in range, and nothing renders when a request throws |
| `Board.Game.FillTableResettingGrid` | jeopardy.js:113 | The corrected fill: it also empties `gameGrid`, so afterwards `gameGrid[k] == categories[k].clues` for every displayed column |
| `Board.Game.HandleClick` | jeopardy.js:153-174 | Looks the clue up in `gameGrid`. A missing clue gives a TypeError; otherwise the clue advances to `Next` and the click shows its question or answer, or nothing once it is at `"answer"` |
| `Restart.RestartRevealsStaleClue` | jeopardy.js:113-124 | After a restart, the first cell shows the new board's clue "Hamlet Author", but a click on it reveals the first board's "2+2" |
| `Restart.RestartRevealsCurrentClue` | jeopardy.js:180-184 | With the corrected fill, the same restart and click reveal "Hamlet Author", the clue on display |

## Findings

| source | as written | input that shows it | evidently intended | confidence | as-written member | corrected member |
|---|---|---|---|---|---|---|
| jeopardy.js:113 | `fillTable` empties `categories` but never `gameGrid`, and then pushes the new clue lists after the old ones. `handleClick` reads `gameGrid[catIdx]`, the c-th clue list pushed since the page loaded, for a cell in column c. After a full first board, every cell of the restarted board leads to a clue of the first board. In general, the board matches `gameGrid` only when no earlier fill pushed anything | start with listing [Math], restart with listing [Literature], then click cell (0, 0): the cell belongs to Literature's "Hamlet Author", but Math's "2+2" is revealed | `gameGrid` emptied together with `categories`, so that `gameGrid[k]` is the clue list of the k-th displayed category | high; not executed | `Restart.RestartRevealsStaleClue` | `Board.Game.FillTableResettingGrid` |

## Left out

- HTTP requests (axios, jeopardy.js:39, 83): their outcomes are inputs.
- The model does not cover concurrent or overlapping `fillTable` runs, such as a second click
  on start while one run is still loading (`async`/`await`).
- jQuery and DOM work is left out: emptying `thead`/`tbody`, the header row of titles, cell
  text, the loading view, event wiring, and `setupAndStart`'s failure message. The same goes
  for `$("restart-btn")` without `#` at jeopardy.js:190. Only the body cells' coordinates are
  modelled.
- `Math.random` and `Math.floor` are replaced by the supplied `draws`. That the shuffle is
  uniform is a probabilistic claim and is not proved. The model proves what it rests on for an
  input without repeated values: each valid draw sequence gives a different ordering, and every
  ordering is given by one. An input with repeated values (such as `[7, 7]`) can reach the same
  ordering from different draws, and the model says nothing about how likely each ordering is
  then.
- `_.sampleSize` internals: its output is taken from a supplied `sampler` that satisfies
  `IsSample`.
- `console.log`/`console.error` output.
- `jQuery.data` parsing of `data-category`/`data-index`: `HandleClick` takes the coordinates
  as natural numbers.
- `showing` holds only the three values the program assigns. The source's `else` branch
  would treat any other value like `"answer"`.
- Clue answers are modelled as strings. The service may send other JSON values, which the
  page only displays.
- The earlier copy's unfinished page code is not modelled (jeopardy/jeopardy.js:106-147). Its
  `fillTable` only builds a header row and never calls `empty`. Its `handleClick`,
  `showLoadingView` and `hideLoadingView` are empty. Its `setupAndStart`
  (jeopardy/jeopardy.js:149-152) makes one `getCategory(4)` call, which pushes that category
  onto `categories` as `Board.Game.GetCategory` models, logs it and renders nothing.
- `Board.Game.FillTable` does not model the uncaught rejection itself: a thrown category
  request shows up only as `None` for the rendered cells.
