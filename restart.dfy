/**
 * Two games in a row on the same page: the restart button runs fillTable a
 * second time.  Because fillTable empties `categories` but never `gameGrid`,
 * the cells of the second board still lead handleClick to the first board's
 * clues.  The same restart with the grid emptied as well leads to the clues
 * on display.
 */
module Restart {
  import opened Api
  import opened Reveal
  import opened Board

  /** One sample `_.sampleSize` may draw: the first `min(5, |cs|)` clues. */
  function FirstClues(k: nat, cs: seq<ApiClue>): (sample: seq<ApiClue>) {
    cs[..Min(NUM_QUESTIONS_PER_CAT, |cs|)]
  }

  lemma FirstCluesIsSample()
    ensures SamplerOk(FirstClues)
  {
    forall k: nat, cs: seq<ApiClue> ensures IsSample(FirstClues(k, cs), cs, NUM_QUESTIONS_PER_CAT) {
      var m := Min(NUM_QUESTIONS_PER_CAT, |cs|);
      assert cs == cs[..m] + cs[m..];
    }
  }

  /** A service holding two categories of one clue each. */
  const Service: map<CategoryId, ApiCategoryDetail> := map[
    1 := ApiCategoryDetail("Math", [ApiClue("2+2", "4")]),
    2 := ApiCategoryDetail("Literature", [ApiClue("Hamlet Author", "Shakespeare")])
  ]

  /** A listing of one category leads to a request for that category alone. */
  lemma SingleListing(listing: array<ApiCategory>)
    requires listing.Length == 1
    ensures RequestedIds(Ok(listing), [0]) == [listing[0].id]
  {
  }

  /**
   * One run of the start or restart button on a listing that holds the single
   * category `cat`, with `gameGrid` kept (as written) or emptied (corrected).
   */
  method FillWithOne(game: Game, cat: ApiCategory, resetting: bool) returns (clues: seq<Clue>)
    requires cat.id in Service
    modifies game
    ensures |game.categories| == 1 && game.categories[0].clues == clues
    ensures |clues| == 1 && clues[0].question == Service[cat.id].clues[0].question
    ensures fresh(clues[0]) && clues[0].showing == Null
    ensures game.gameGrid == (if resetting then [] else old(game.gameGrid)) + [clues]
  {
    FirstCluesIsSample();
    var listing := new ApiCategory[1](_ => cat);
    SingleListing(listing);
    var cells;
    if resetting {
      cells := game.FillTableResettingGrid(Ok(listing), [0], Service, FirstClues);
    } else {
      cells := game.FillTable(Ok(listing), [0], Service, FirstClues);
    }
    assert Loadable([cat.id], Service) == 1;
    clues := game.categories[0].clues;
    assert BuiltFrom(game.categories[0], Service[cat.id], FirstClues(0, Service[cat.id].clues));
    assert Columns(game.categories) == [clues];
    InClueSet(game.categories, 0, 0);
  }

  /**
   * Start with listing [Math], restart with listing [Literature], click the
   * top-left cell: the board shows the Literature column, but the click
   * reveals the question of the first game's Math clue.
   */
  method RestartRevealsStaleClue() returns (onBoard: string, shown: ClickOutcome)
    ensures onBoard == "Hamlet Author"
    ensures shown == Shows("2+2")
  {
    var game := new Game();
    var math := FillWithOne(game, ApiCategory(1, "Math"), false);
    var literature := FillWithOne(game, ApiCategory(2, "Literature"), false);
    assert game.gameGrid[0] == math;
    onBoard := literature[0].question;
    shown := game.HandleClick(0, 0);
  }

  /** The same two games with the grid emptied on each fill: the click reveals the clue on display. */
  method RestartRevealsCurrentClue() returns (onBoard: string, shown: ClickOutcome)
    ensures onBoard == "Hamlet Author"
    ensures shown == Shows("Hamlet Author")
  {
    var game := new Game();
    var math := FillWithOne(game, ApiCategory(1, "Math"), true);
    var literature := FillWithOne(game, ApiCategory(2, "Literature"), true);
    assert game.gameGrid[0] == literature;
    onBoard := literature[0].question;
    shown := game.HandleClick(0, 0);
  }
}
