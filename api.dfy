/**
 * What the remote trivia service sends back.  The HTTP calls themselves are
 * not modelled: their outcomes are inputs to the operations that make them.
 */
module Api {

  type CategoryId = int

  /** One entry of the category listing, `GET categories?count=100`. */
  datatype ApiCategory = ApiCategory(id: CategoryId, title: string)

  /** One clue as the service stores it. */
  datatype ApiClue = ApiClue(question: string, answer: string)

  /** The body of `GET category?id=...`. */
  datatype ApiCategoryDetail = ApiCategoryDetail(title: string, clues: seq<ApiClue>)

  /** The outcome of an awaited request: its data, or a rejection (the request throws). */
  datatype Response<T> = Ok(data: T) | Rejected

  function Min(a: int, b: int): (m: int) {
    if a <= b then a else b
  }

  /**
   * What `_.sampleSize(clues, n)` promises: `min(n, |clues|)` clues taken from
   * distinct positions of `clues`.
   */
  predicate IsSample(sampled: seq<ApiClue>, clues: seq<ApiClue>, n: nat) {
    |sampled| == Min(n, |clues|) && multiset(sampled) <= multiset(clues)
  }
}
