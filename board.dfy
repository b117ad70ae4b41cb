/**
 * The board of jeopardy.js: the module-level `categories` and `gameGrid`
 * arrays, the clue objects they share, getCategory, fillTable, the body cell
 * coordinates fillTable renders, and handleClick.
 */
module Board {
  import opened Wrappers
  import opened Api
  import opened Seqs
  import opened Shuffle
  import opened Reveal
  import opened CategorySelection

  const NUM_QUESTIONS_PER_CAT: nat := 5

  /**
   * A clue object `{question, answer, showing}`.  The same object is reachable
   * from `categories[k].clues` and from `gameGrid[k]`; only `showing` is ever
   * assigned after the object is made, so `question` and `answer` are `const`.
   */
  class Clue {
    const question: string
    const answer: string
    var showing: Showing

    /** The object literal built by getCategory's `.map`: `showing` starts at `null`. */
    constructor (question: string, answer: string)
      ensures this.question == question && this.answer == answer && showing == Null
    {
      this.question := question;
      this.answer := answer;
      showing := Null;
    }

    /** The branch of handleClick that inspects and advances `showing`. */
    method Click() returns (shown: Option<string>)
      modifies this
      ensures showing == Next(old(showing))
      ensures shown == Display(old(showing), question, answer)
    {
      if showing == Null {
        shown := Some(question);
        showing := Question;
      } else if showing == Question {
        shown := Some(answer);
        showing := Answer;
      } else {
        shown := None;
      }
    }
  }

  /** An entry of `categories`: `{title, clues}`. */
  datatype Category = Category(title: string, clues: seq<Clue>)

  /** The `data-category` and `data-index` attributes of a body cell. */
  datatype Cell = Cell(catIdx: nat, clueIdx: nat)

  /** What a click on a cell does: put a text in it, leave it alone, or throw. */
  datatype ClickOutcome = Shows(text: string) | NoChange | TypeError

  /** `clues` carry the questions and answers of `sampled`, position by position. */
  predicate Copied(clues: seq<Clue>, sampled: seq<ApiClue>) {
    && |clues| == |sampled|
    && forall k :: 0 <= k < |clues| ==>
         clues[k].question == sampled[k].question && clues[k].answer == sampled[k].answer
  }

  /** Every clue of `clues` is hidden (`showing` is `null`). */
  ghost predicate AllHidden(clues: seq<Clue>)
    reads clues
  {
    forall c :: c in clues ==> c.showing == Null
  }

  /** `cat` has the title of the response `detail` and the clues of the sample `sampled`. */
  predicate BuiltFrom(cat: Category, detail: ApiCategoryDetail, sampled: seq<ApiClue>) {
    cat.title == detail.title && Copied(cat.clues, sampled)
  }

  /**
   * `cats` are the categories loaded for the first `|cats|` of `ids`, in order:
   * each request was answered, and each entry is built from its response and
   * from the sample drawn for it.
   */
  predicate Loaded(cats: seq<Category>, ids: seq<CategoryId>, server: map<CategoryId, ApiCategoryDetail>,
                   sampler: (nat, seq<ApiClue>) -> seq<ApiClue>)
  {
    && |cats| <= |ids|
    && forall i :: 0 <= i < |cats| ==>
         ids[i] in server && BuiltFrom(cats[i], server[ids[i]], sampler(i, server[ids[i]].clues))
  }

  /** Every clue object on a board made of `cats`. */
  ghost function ClueSet(cats: seq<Category>): (clues: set<Clue>) {
    set i, c | 0 <= i < |cats| && c in cats[i].clues :: c
  }

  /** Every clue on a board made of `cats` is hidden. */
  ghost predicate BoardHidden(cats: seq<Category>)
    reads ClueSet(cats)
  {
    forall c :: c in ClueSet(cats) ==> c.showing == Null
  }

  /** The clue lists of `cats`, one per category, as fillTable pushes them into `gameGrid`. */
  function Columns(cats: seq<Category>): (grid: seq<seq<Clue>>)
    ensures |grid| == |cats|
    ensures forall k :: 0 <= k < |cats| ==> grid[k] == cats[k].clues
  {
    seq(|cats|, k requires 0 <= k < |cats| => cats[k].clues)
  }

  /** How many leading ids the service answers; the first request it rejects ends the loop. */
  function Loadable(ids: seq<CategoryId>, server: map<CategoryId, ApiCategoryDetail>): (m: nat)
    ensures m <= |ids|
    ensures forall k :: 0 <= k < m ==> ids[k] in server
    ensures m < |ids| ==> ids[m] !in server
  {
    if ids == [] || ids[0] !in server then 0 else 1 + Loadable(ids[1..], server)
  }

  /** `_.sampleSize(clues, NUM_QUESTIONS_PER_CAT)` for the k-th request of a fillTable run. */
  ghost predicate SamplerOk(sampler: (nat, seq<ApiClue>) -> seq<ApiClue>) {
    forall k: nat, cs: seq<ApiClue> :: IsSample(sampler(k, cs), cs, NUM_QUESTIONS_PER_CAT)
  }

  /** The ids getRandomCategoryIds returns for this listing response and these draws. */
  function RequestedIds(listing: Response<array<ApiCategory>>, draws: seq<nat>): (ids: seq<CategoryId>)
    requires listing.Ok? ==> ValidDraws(draws, listing.data.Length)
    reads if listing.Ok? then {listing.data} else {}
  {
    if listing.Ok? then ChosenIds(listing.data[..], draws) else []
  }

  /** One row `<tr>` of body cells: every category at clue index `clueIdx`. */
  function Row(clueIdx: nat, numCats: nat): (row: seq<Cell>)
    ensures |row| == numCats
    ensures forall c :: 0 <= c < numCats ==> row[c] == Cell(c, clueIdx)
  {
    seq(numCats, c requires 0 <= c < numCats => Cell(c, clueIdx))
  }

  /** The first `rows` rows of the table body, top to bottom. */
  function BodyGrid(rows: nat, numCats: nat): (cells: seq<Cell>)
    decreases rows
  {
    if rows == 0 then [] else BodyGrid(rows - 1, numCats) + Row(rows - 1, numCats)
  }

  /**
   * The body has `rows * numCats` cells, each coordinate in range, every
   * coordinate present, and none twice.
   */
  lemma {:induction false} BodyGridShape(rows: nat, numCats: nat)
    ensures |BodyGrid(rows, numCats)| == rows * numCats
    ensures forall cell :: cell in BodyGrid(rows, numCats) ==> cell.catIdx < numCats && cell.clueIdx < rows
    ensures forall c, r :: 0 <= c < numCats && 0 <= r < rows ==> Cell(c, r) in BodyGrid(rows, numCats)
    ensures Distinct(BodyGrid(rows, numCats))
    decreases rows
  {
    if rows > 0 {
      BodyGridShape(rows - 1, numCats);
      var above, row := BodyGrid(rows - 1, numCats), Row(rows - 1, numCats);
      var all := above + row;
      assert all == BodyGrid(rows, numCats);
      assert (rows - 1) * numCats + numCats == rows * numCats;
      forall c, r | 0 <= c < numCats && 0 <= r < rows ensures Cell(c, r) in all {
        if r == rows - 1 {
          assert row[c] == Cell(c, r);
        } else {
          assert Cell(c, r) in above;
        }
      }
      forall a, b | 0 <= a < b < |all| ensures all[a] != all[b] {
        if b < |above| {
          assert all[a] == above[a] && all[b] == above[b];
        } else if a < |above| {
          assert all[a] in above;
          assert all[b] == row[b - |above|];
        } else {
          assert all[a] == row[a - |above|] && all[b] == row[b - |above|];
        }
      }
    }
  }

  /** The nested loops of fillTable that lay out the body cells, row by row. */
  method BodyCells(numCats: nat) returns (cells: seq<Cell>)
    ensures cells == BodyGrid(NUM_QUESTIONS_PER_CAT, numCats)
    ensures |cells| == NUM_QUESTIONS_PER_CAT * numCats
    ensures forall cell :: cell in cells ==> cell.catIdx < numCats && cell.clueIdx < NUM_QUESTIONS_PER_CAT
    ensures forall c, r :: 0 <= c < numCats && 0 <= r < NUM_QUESTIONS_PER_CAT ==> Cell(c, r) in cells
  {
    cells := [];
    var clueIdx := 0;
    while clueIdx < NUM_QUESTIONS_PER_CAT
      invariant 0 <= clueIdx <= NUM_QUESTIONS_PER_CAT
      invariant cells == BodyGrid(clueIdx, numCats)
    {
      var tr := [];
      var catIdx := 0;
      while catIdx < numCats
        invariant 0 <= catIdx <= numCats
        invariant tr == Row(clueIdx, numCats)[..catIdx]
      {
        tr := tr + [Cell(catIdx, clueIdx)];
        catIdx := catIdx + 1;
      }
      cells := cells + tr;
      clueIdx := clueIdx + 1;
    }
    BodyGridShape(NUM_QUESTIONS_PER_CAT, numCats);
  }

  /** getCategory's `.map`: one new clue object per sampled clue, all hidden. */
  method MakeClues(sampled: seq<ApiClue>) returns (clues: seq<Clue>)
    ensures Copied(clues, sampled) && AllHidden(clues)
    ensures forall c :: c in clues ==> fresh(c)
    ensures Distinct(clues)
  {
    clues := [];
    for k := 0 to |sampled|
      invariant Copied(clues, sampled[..k]) && AllHidden(clues)
      invariant forall c :: c in clues ==> fresh(c)
      invariant Distinct(clues)
    {
      var clue := new Clue(sampled[k].question, sampled[k].answer);
      clues := clues + [clue];
    }
    assert sampled[..|sampled|] == sampled;
  }

  /** The module-level state of jeopardy.js. */
  class Game {
    var categories: seq<Category>
    var gameGrid: seq<seq<Clue>>

    constructor ()
      ensures categories == [] && gameGrid == []
    {
      categories := [];
      gameGrid := [];
    }

    /** Column k of the grid handleClick reads is the clue list of the k-th category on display. */
    predicate GridMatchesBoard()
      reads this
    {
      gameGrid == Columns(categories)
    }

    /**
     * getCategory(catId), with the service's contents `server` (an id it does
     * not hold makes the request, and so the call, throw) and the sample
     * `_.sampleSize` drew from the fetched clues.
     */
    method GetCategory(catId: CategoryId, server: map<CategoryId, ApiCategoryDetail>, sampled: seq<ApiClue>)
      returns (result: Option<Category>)
      requires catId in server ==> IsSample(sampled, server[catId].clues, NUM_QUESTIONS_PER_CAT)
      modifies this`categories
      ensures catId !in server ==> result == None && categories == old(categories)
      ensures catId in server ==> result.Some? && categories == old(categories) + [result.value]
      ensures catId in server ==> BuiltFrom(result.value, server[catId], sampled)
      ensures catId in server ==> |result.value.clues| == Min(NUM_QUESTIONS_PER_CAT, |server[catId].clues|)
      ensures catId in server ==> forall c :: c in result.value.clues ==>
                fresh(c) && c.showing == Null && ApiClue(c.question, c.answer) in server[catId].clues
      ensures result.Some? ==> Distinct(result.value.clues)
    {
      if catId !in server {
        return None;
      }
      var cat := server[catId];
      var clues := MakeClues(sampled);
      var category := Category(cat.title, clues);
      categories := categories + [category];
      forall c | c in clues ensures ApiClue(c.question, c.answer) in cat.clues {
        var k :| 0 <= k < |clues| && clues[k] == c;
        assert ApiClue(c.question, c.answer) == sampled[k];
        assert sampled[k] in multiset(sampled);
      }
      return Some(category);
    }

    /**
     * One pass of fillTable's loop over the ids, the `k`-th: getCategory(catId)
     * followed by `gameGrid.push(category.clues)`.  A rejected request throws
     * before anything is pushed.
     */
    method LoadOne(catId: CategoryId, k: nat, server: map<CategoryId, ApiCategoryDetail>,
                   sampler: (nat, seq<ApiClue>) -> seq<ApiClue>)
      returns (category: Option<Category>)
      requires SamplerOk(sampler)
      modifies this
      ensures catId !in server ==> category == None && categories == old(categories) && gameGrid == old(gameGrid)
      ensures catId in server ==> category.Some? && categories == old(categories) + [category.value]
      ensures catId in server ==> gameGrid == old(gameGrid) + [category.value.clues]
      ensures catId in server ==> BuiltFrom(category.value, server[catId], sampler(k, server[catId].clues))
      ensures category.Some? ==> fresh(set c | c in category.value.clues)
      ensures category.Some? ==> forall c :: c in category.value.clues ==> c.showing == Null
    {
      var sampled := if catId in server then sampler(k, server[catId].clues) else [];
      category := GetCategory(catId, server, sampled);
      if category.Some? {
        gameGrid := gameGrid + [category.value.clues];
      }
    }

    /**
     * The `for (const catId of categoryIds)` loop of fillTable: fetch each
     * category in turn and push its clue list onto `gameGrid`.  A rejected
     * request throws out of the loop, leaving the entries pushed so far.
     */
    method LoadCategories(ids: seq<CategoryId>, server: map<CategoryId, ApiCategoryDetail>,
                          sampler: (nat, seq<ApiClue>) -> seq<ApiClue>)
      returns (ok: bool)
      requires SamplerOk(sampler)
      modifies this
      ensures ok <==> Loadable(ids, server) == |ids|
      ensures |categories| == |old(categories)| + Loadable(ids, server)
      ensures categories[..|old(categories)|] == old(categories)
      ensures Loaded(categories[|old(categories)|..], ids, server, sampler)
      ensures fresh(ClueSet(categories[|old(categories)|..]))
      ensures BoardHidden(categories[|old(categories)|..])
      ensures gameGrid == old(gameGrid) + Columns(categories[|old(categories)|..])
    {
      ghost var added: seq<Category> := [];
      ghost var made: set<Clue> := {};
      ok := true;
      var k := 0;
      while k < |ids|
        invariant 0 <= k <= |ids| && |added| == k
        invariant categories == old(categories) + added
        invariant Loaded(added, ids, server, sampler)
        invariant ClueSet(added) == made
        invariant fresh(made)
        invariant forall c :: c in made ==> c.showing == Null
        invariant gameGrid == old(gameGrid) + Columns(added)
      {
        var category := LoadOne(ids[k], k, server, sampler);
        if category.None? {
          ok := false;
          LoadableStopsAt(ids, server, k);
          assert categories[|old(categories)|..] == added;
          return;
        }
        LoadedExtended(added, category.value, ids, server, sampler);
        ClueSetExtended(added, category.value);
        made := made + set c | c in category.value.clues;
        added := added + [category.value];
        k := k + 1;
      }
      LoadableAll(ids, server);
      assert categories[|old(categories)|..] == added;
    }

    /**
     * fillTable as written: empty `categories` (but not `gameGrid`), choose
     * the ids, load the categories, then lay out the body cells.  `cells` is
     * None when a category request threw, in which case nothing is rendered.
     */
    method FillTable(listing: Response<array<ApiCategory>>, draws: seq<nat>,
                     server: map<CategoryId, ApiCategoryDetail>,
                     sampler: (nat, seq<ApiClue>) -> seq<ApiClue>)
      returns (cells: Option<seq<Cell>>)
      requires listing.Ok? ==> ValidDraws(draws, listing.data.Length)
      requires SamplerOk(sampler)
      modifies this
      ensures listing.Ok? ==> listing.data[..] == old(listing.data[..])
      ensures cells.Some? <==> Loadable(RequestedIds(listing, draws), server) == |RequestedIds(listing, draws)|
      ensures |categories| == Loadable(RequestedIds(listing, draws), server)
      ensures Loaded(categories, RequestedIds(listing, draws), server, sampler)
      ensures fresh(ClueSet(categories))
      ensures BoardHidden(categories)
      ensures gameGrid == old(gameGrid) + Columns(categories)
      ensures |gameGrid| >= |categories|
      ensures GridMatchesBoard() <==> old(gameGrid) == []
      ensures cells.Some? ==> cells.value == BodyGrid(NUM_QUESTIONS_PER_CAT, |categories|)
    {
      categories := [];
      var ids := GetRandomCategoryIds(listing, draws);
      assert ids == RequestedIds(listing, draws);
      var ok := LoadCategories(ids, server, sampler);
      assert categories[0..] == categories;
      assert ids == RequestedIds(listing, draws);
      if ok {
        var body := BodyCells(|categories|);
        cells := Some(body);
      } else {
        cells := None;
      }
    }

    /**
     * fillTable with `gameGrid` emptied alongside `categories`, so that every
     * column handleClick reads is a column of the board on display.
     */
    method FillTableResettingGrid(listing: Response<array<ApiCategory>>, draws: seq<nat>,
                                  server: map<CategoryId, ApiCategoryDetail>,
                                  sampler: (nat, seq<ApiClue>) -> seq<ApiClue>)
      returns (cells: Option<seq<Cell>>)
      requires listing.Ok? ==> ValidDraws(draws, listing.data.Length)
      requires SamplerOk(sampler)
      modifies this
      ensures listing.Ok? ==> listing.data[..] == old(listing.data[..])
      ensures cells.Some? <==> Loadable(RequestedIds(listing, draws), server) == |RequestedIds(listing, draws)|
      ensures |categories| == Loadable(RequestedIds(listing, draws), server)
      ensures Loaded(categories, RequestedIds(listing, draws), server, sampler)
      ensures fresh(ClueSet(categories))
      ensures BoardHidden(categories)
      ensures gameGrid == Columns(categories)
      ensures GridMatchesBoard()
      ensures cells.Some? ==> cells.value == BodyGrid(NUM_QUESTIONS_PER_CAT, |categories|)
    {
      categories := [];
      gameGrid := [];
      var ids := GetRandomCategoryIds(listing, draws);
      assert ids == RequestedIds(listing, draws);
      var ok := LoadCategories(ids, server, sampler);
      assert categories[0..] == categories;
      assert ids == RequestedIds(listing, draws);
      if ok {
        var body := BodyCells(|categories|);
        cells := Some(body);
      } else {
        cells := None;
      }
    }

    /**
     * handleClick on the cell with coordinates (catIdx, clueIdx): look the clue
     * up in `gameGrid` and advance it.  A coordinate with no clue behind it
     * makes `clue.showing` throw a TypeError.
     */
    method HandleClick(catIdx: nat, clueIdx: nat) returns (outcome: ClickOutcome)
      modifies if catIdx < |gameGrid| && clueIdx < |gameGrid[catIdx]| then {gameGrid[catIdx][clueIdx]} else {}
      ensures !(catIdx < |gameGrid| && clueIdx < |gameGrid[catIdx]|) ==> outcome == TypeError
      ensures catIdx < |gameGrid| && clueIdx < |gameGrid[catIdx]| ==>
                var clue := gameGrid[catIdx][clueIdx];
                && clue.showing == Next(old(clue.showing))
                && (outcome == NoChange <==> old(clue.showing) == Answer)
                && (outcome != NoChange ==> outcome.Shows? && Display(old(clue.showing), clue.question, clue.answer) == Some(outcome.text))
    {
      if !(catIdx < |gameGrid| && clueIdx < |gameGrid[catIdx]|) {
        return TypeError;
      }
      var clue := gameGrid[catIdx][clueIdx];
      var shown := clue.Click();
      match shown
      case Some(text) => outcome := Shows(text);
      case None => outcome := NoChange;
    }
  }

  /** A clue of a category on the board is one of the board's clues. */
  lemma InClueSet(cats: seq<Category>, i: nat, j: nat)
    requires i < |cats| && j < |cats[i].clues|
    ensures cats[i].clues[j] in ClueSet(cats)
  {
    assert cats[i].clues[j] in cats[i].clues;
  }

  /** Loading the next requested category extends what has been loaded. */
  lemma LoadedExtended(cats: seq<Category>, cat: Category, ids: seq<CategoryId>,
                       server: map<CategoryId, ApiCategoryDetail>, sampler: (nat, seq<ApiClue>) -> seq<ApiClue>)
    requires Loaded(cats, ids, server, sampler) && |cats| < |ids| && ids[|cats|] in server
    requires BuiltFrom(cat, server[ids[|cats|]], sampler(|cats|, server[ids[|cats|]].clues))
    ensures Loaded(cats + [cat], ids, server, sampler)
  {
  }

  /** The clues of a board with one more category are the old clues and that category's. */
  lemma ClueSetExtended(cats: seq<Category>, cat: Category)
    ensures ClueSet(cats + [cat]) == ClueSet(cats) + set c | c in cat.clues
  {
    var all := cats + [cat];
    forall c | c in ClueSet(all) ensures c in ClueSet(cats) || c in cat.clues {
      var i :| 0 <= i < |all| && c in all[i].clues;
      if i < |cats| {
        assert all[i] == cats[i];
      }
    }
    forall c | c in ClueSet(cats) ensures c in ClueSet(all) {
      var i :| 0 <= i < |cats| && c in cats[i].clues;
      assert all[i] == cats[i];
    }
    forall c | c in cat.clues ensures c in ClueSet(all) {
      assert all[|cats|] == cat;
    }
  }

  lemma LoadableStopsAt(ids: seq<CategoryId>, server: map<CategoryId, ApiCategoryDetail>, k: nat)
    requires k < |ids| && ids[k] !in server
    requires forall i :: 0 <= i < k ==> ids[i] in server
    ensures Loadable(ids, server) == k
  {
  }

  lemma LoadableAll(ids: seq<CategoryId>, server: map<CategoryId, ApiCategoryDetail>)
    requires forall i :: 0 <= i < |ids| ==> ids[i] in server
    ensures Loadable(ids, server) == |ids|
  {
  }
}
