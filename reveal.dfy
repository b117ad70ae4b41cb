/**
 * The reveal state of a clue, the `showing` property of jeopardy.js: `null`
 * (hidden), `"question"` or `"answer"`, and what one click does to it.
 */
module Reveal {
  import opened Wrappers

  /** `showing`: Null for `null`, Question for `"question"`, Answer for `"answer"`. */
  datatype Showing = Null | Question | Answer

  /** How far a clue has been revealed. */
  function Rank(s: Showing): (r: nat) {
    match s
    case Null => 0
    case Question => 1
    case Answer => 2
  }

  /** The state after one click: a step forward, except that Answer stays Answer. */
  function Next(s: Showing): (r: Showing)
    ensures Rank(r) == if s == Answer then Rank(s) else Rank(s) + 1
  {
    match s
    case Null => Question
    case Question => Answer
    case Answer => Answer
  }

  /** The text one click in state `s` puts in the cell: question, then answer, then nothing. */
  function Display(s: Showing, question: string, answer: string): (r: Option<string>)
    ensures r.None? <==> s == Answer
    ensures r.Some? ==> r.value == if s == Null then question else answer
  {
    match s
    case Null => Some(question)
    case Question => Some(answer)
    case Answer => None
  }

  /** The state after `n` clicks. */
  function AfterClicks(s: Showing, n: nat): (r: Showing)
    decreases n
  {
    if n == 0 then s else AfterClicks(Next(s), n - 1)
  }

  /** The texts `n` clicks put in the cell, in order. */
  function Transcript(s: Showing, question: string, answer: string, n: nat): (shown: seq<string>)
    decreases n
  {
    if n == 0 then []
    else
      var shown := match Display(s, question, answer)
        case Some(text) => [text]
        case None => [];
      shown + Transcript(Next(s), question, answer, n - 1)
  }

  /** Clicks never move a clue backwards. */
  lemma {:induction false} ClicksNeverRegress(s: Showing, m: nat, n: nat)
    requires m <= n
    ensures Rank(AfterClicks(s, m)) <= Rank(AfterClicks(s, n))
    decreases n
  {
    if m > 0 {
      ClicksNeverRegress(Next(s), m - 1, n - 1);
    } else if n > 0 {
      ClicksNeverRegress(Next(s), 0, n - 1);
    }
  }

  /** Answer is terminal: any number of further clicks change nothing and show nothing. */
  lemma {:induction false} AnswerIsTerminal(question: string, answer: string, n: nat)
    ensures AfterClicks(Answer, n) == Answer
    ensures Transcript(Answer, question, answer, n) == []
    decreases n
  {
    if n > 0 {
      AnswerIsTerminal(question, answer, n - 1);
    }
  }

  /**
   * From a fresh clue, the first click shows the question, the second the
   * answer, and nothing is shown after that; two clicks reach Answer.
   */
  lemma ClicksFromHidden(question: string, answer: string, n: nat)
    ensures AfterClicks(Null, n) == if n == 0 then Null else if n == 1 then Question else Answer
    ensures Transcript(Null, question, answer, n) == [question, answer][..if n < 2 then n else 2]
  {
    if n >= 2 {
      AnswerIsTerminal(question, answer, n - 2);
      assert AfterClicks(Null, n) == AfterClicks(Answer, n - 2);
      assert Transcript(Null, question, answer, n)
          == [question] + ([answer] + Transcript(Answer, question, answer, n - 2));
    }
  }
}
