/**
 * getRandomCategoryIds: fetch the category listing, shuffle a copy of it, and
 * keep the ids of the first NUM_CATEGORIES entries.  A failed fetch gives the
 * empty list instead of an exception.
 */
module CategorySelection {
  import opened Api
  import opened Seqs
  import opened Shuffle

  const NUM_CATEGORIES: nat := 6

  /** `.map((cat) => cat.id)` */
  function Ids(cats: seq<ApiCategory>): (ids: seq<CategoryId>)
    ensures |ids| == |cats|
    ensures forall k :: 0 <= k < |cats| ==> ids[k] == cats[k].id
  {
    seq(|cats|, k requires 0 <= k < |cats| => cats[k].id)
  }

  /** `shuffled.slice(0, NUM_CATEGORIES).map((cat) => cat.id)` */
  function SelectIds(shuffled: seq<ApiCategory>): (ids: seq<CategoryId>) {
    Ids(shuffled[..Min(NUM_CATEGORIES, |shuffled|)])
  }

  /** The ids chosen from a fetched listing under the given draws. */
  function ChosenIds(listing: seq<ApiCategory>, draws: seq<nat>): (ids: seq<CategoryId>)
    requires ValidDraws(draws, |listing|)
  {
    SelectIds(Shuffled(listing, draws))
  }

  lemma IdsOfSwap(cats: seq<ApiCategory>, i: nat, j: nat)
    requires i < |cats| && j < |cats|
    ensures Ids(Swap(cats, i, j)) == Swap(Ids(cats), i, j)
  {
  }

  lemma {:induction false} IdsOfShuffleDown(cats: seq<ApiCategory>, draws: seq<nat>, i: nat)
    requires i < |cats| && i < |draws| && DrawsInRange(draws)
    ensures Ids(ShuffleDown(cats, draws, i)) == ShuffleDown(Ids(cats), draws, i)
    decreases i
  {
    if i > 0 {
      IdsOfSwap(cats, i, draws[i]);
      IdsOfShuffleDown(Swap(cats, i, draws[i]), draws, i - 1);
    }
  }

  /** Shuffling the categories and then taking ids is the same as shuffling the ids. */
  lemma IdsOfShuffled(cats: seq<ApiCategory>, draws: seq<nat>)
    requires ValidDraws(draws, |cats|)
    ensures Ids(Shuffled(cats, draws)) == Shuffled(Ids(cats), draws)
  {
    if |cats| > 0 {
      IdsOfShuffleDown(cats, draws, |cats| - 1);
    }
  }

  /**
   * The selection keeps `min(NUM_CATEGORIES, n)` ids, each of them the id of a
   * fetched category, and repeats none when the listing repeats none.
   */
  lemma ChosenIdsProperties(listing: seq<ApiCategory>, draws: seq<nat>)
    requires ValidDraws(draws, |listing|)
    ensures |ChosenIds(listing, draws)| == Min(NUM_CATEGORIES, |listing|)
    ensures forall id :: id in ChosenIds(listing, draws) ==> id in Ids(listing)
    ensures Distinct(Ids(listing)) ==> Distinct(ChosenIds(listing, draws))
  {
    var shuffled := Shuffled(listing, draws);
    var m := Min(NUM_CATEGORIES, |listing|);
    var ids := ChosenIds(listing, draws);
    IdsOfShuffled(listing, draws);
    ShuffledIsPermutation(Ids(listing), draws);
    assert ids == Ids(shuffled)[..m];
    forall id | id in ids ensures id in Ids(listing) {
      assert id in multiset(Shuffled(Ids(listing), draws));
    }
    if Distinct(Ids(listing)) {
      ShuffledKeepsDistinct(Ids(listing), draws);
    }
  }

  /**
   * getRandomCategoryIds, with the listing request's outcome and the shuffle's
   * draws as inputs.  The listing is copied before it is shuffled, so the
   * fetched array itself is left as it was (the method may modify nothing it
   * was given).
   */
  method GetRandomCategoryIds(response: Response<array<ApiCategory>>, draws: seq<nat>)
    returns (ids: seq<CategoryId>)
    requires response.Ok? ==> ValidDraws(draws, response.data.Length)
    ensures response.Rejected? ==> ids == []
    ensures response.Ok? ==> ids == ChosenIds(response.data[..], draws)
    ensures response.Ok? ==> |ids| == Min(NUM_CATEGORIES, response.data.Length)
    ensures forall id :: id in ids ==> response.Ok? && id in Ids(response.data[..])
    ensures response.Ok? && Distinct(Ids(response.data[..])) ==> Distinct(ids)
  {
    match response
    case Rejected =>
      ids := [];
    case Ok(listing) =>
      var copy := new ApiCategory[listing.Length](k requires 0 <= k < listing.Length reads listing => listing[k]);
      assert copy[..] == listing[..];
      var shuffled := FisherYatesShuffle(copy, draws);
      ids := SelectIds(shuffled[..]);
      ChosenIdsProperties(listing[..], draws);
  }
}
