/** The value of a position under exhaustive adversarial search, and the
    computer's choice of move. O maximises the score and X minimises it;
    a position is worth 1 when O has a line, -1 when X has one and 0 for a tie. */
module MinimaxSearch {
  import opened TicTacToeBoard

  /** Starting best scores of the maximising and the minimising scan; they stand
      for the source's -inf and +inf and lie outside every score. */
  const NegInf: int := -2
  const PosInf: int := 2

  /** The mark the side to move places: O when maximising, X when minimising. */
  function MarkFor(maximizing: bool): Player
  {
    if maximizing then O else X
  }

  function Max(a: int, b: int): int { if a >= b then a else b }
  function Min(a: int, b: int): int { if a <= b then a else b }

  /** `score` is at least as good as `other` for the side to move. */
  predicate AtLeastAsGood(maximizing: bool, score: int, other: int)
  {
    if maximizing then score >= other else score <= other
  }

  /** The result of minimax(maximizing) on board b. The base cases come first, in the
      source's order; otherwise every blank cell is tried in row-major order. */
  function Value(b: Board, maximizing: bool): int
    decreases EmptyCount(b), 1, 0
  {
    if Wins(b, O) then 1
    else if Wins(b, X) then -1
    else if IsFull(b) then 0
    else Scan(b, maximizing, 0, if maximizing then NegInf else PosInf)
  }

  /** The running best score of minimax's loops once cells k..8 have been scanned,
      starting from `best`. */
  function Scan(b: Board, maximizing: bool, k: nat, best: int): int
    requires k <= 9
    decreases EmptyCount(b), 0, 9 - k
  {
    if k == 9 then best
    else if b[k] == Empty then
      EmptyCountPlace(b, k, MarkFor(maximizing));
      var score := Value(b[k := MarkFor(maximizing)], !maximizing);
      Scan(b, maximizing, k + 1, if maximizing then Max(score, best) else Min(score, best))
    else
      Scan(b, maximizing, k + 1, best)
  }

  /** The score minimax gives the opponent's reply after the side to move marks blank cell k. */
  function ChildValue(b: Board, maximizing: bool, k: nat): int
    requires k < 9 && b[k] == Empty
  {
    Value(b[k := MarkFor(maximizing)], !maximizing)
  }

  predicate Terminal(b: Board)
  {
    Wins(b, O) || Wins(b, X) || IsFull(b)
  }

  /** Scanning from cell k keeps the best of `best` and the scores of the blank cells from k on. */
  lemma {:induction false} ScanIsBest(b: Board, maximizing: bool, k: nat, best: int)
    requires k <= 9
    ensures AtLeastAsGood(maximizing, Scan(b, maximizing, k, best), best)
    ensures forall j :: k <= j < 9 && b[j] == Empty ==>
      AtLeastAsGood(maximizing, Scan(b, maximizing, k, best), ChildValue(b, maximizing, j))
    ensures Scan(b, maximizing, k, best) == best ||
      exists j :: k <= j < 9 && b[j] == Empty && Scan(b, maximizing, k, best) == ChildValue(b, maximizing, j)
    decreases 9 - k
  {
    if k < 9 {
      if b[k] == Empty {
        var score := ChildValue(b, maximizing, k);
        ScanIsBest(b, maximizing, k + 1, if maximizing then Max(score, best) else Min(score, best));
      } else {
        ScanIsBest(b, maximizing, k + 1, best);
      }
    }
  }

  /** minimax always returns 1, 0 or -1: the infinite starting score never survives. */
  lemma {:induction false} ValueRange(b: Board, maximizing: bool)
    ensures -1 <= Value(b, maximizing) <= 1
    decreases EmptyCount(b)
  {
    if !Terminal(b) {
      var start := if maximizing then NegInf else PosInf;
      ScanIsBest(b, maximizing, 0, start);
      forall j | 0 <= j < 9 && b[j] == Empty
        ensures -1 <= ChildValue(b, maximizing, j) <= 1
      {
        EmptyCountPlace(b, j, MarkFor(maximizing));
        ValueRange(b[j := MarkFor(maximizing)], !maximizing);
      }
      var j :| 0 <= j < 9 && b[j] == Empty;
      assert AtLeastAsGood(maximizing, Value(b, maximizing), ChildValue(b, maximizing, j));
    }
  }

  /** The base cases of minimax, in their order of precedence. */
  lemma ValueBaseCases(b: Board, maximizing: bool)
    ensures Wins(b, O) ==> Value(b, maximizing) == 1
    ensures !Wins(b, O) && Wins(b, X) ==> Value(b, maximizing) == -1
    ensures !Wins(b, O) && !Wins(b, X) && IsFull(b) ==> Value(b, maximizing) == 0
  {
  }

  /** Away from the base cases, minimax returns the best score over the blank cells:
      no blank cell scores better for the side to move, and some blank cell scores exactly that. */
  lemma {:induction false} ValueIsOptimal(b: Board, maximizing: bool)
    requires !Terminal(b)
    ensures forall j :: 0 <= j < 9 && b[j] == Empty ==>
      AtLeastAsGood(maximizing, Value(b, maximizing), ChildValue(b, maximizing, j))
    ensures exists j :: 0 <= j < 9 && b[j] == Empty && Value(b, maximizing) == ChildValue(b, maximizing, j)
  {
    var start := if maximizing then NegInf else PosInf;
    ScanIsBest(b, maximizing, 0, start);
    ValueRange(b, maximizing);
  }

  /** A cell position as best_move returns it: (row, col). */
  type Cell = (nat, nat)

  /** The (row, col) of row-major position k. */
  function CellAt(k: nat): (c: Cell)
    requires k < 9
    ensures c.0 < 3 && c.1 < 3 && Index(c.0, c.1) == k
  {
    if k < 3 then (0, k) else if k < 6 then (1, k - 3) else (2, k - 6)
  }

  /** The score best_move gives each cell: minimax(False) once O has marked it, or
      None for a taken cell, which it skips. */
  function CellScores(b: Board): (scores: seq<Option<int>>)
    ensures |scores| == 9
  {
    seq(9, k requires 0 <= k < 9 => if b[k] == Empty then Some(ChildValue(b, true, k)) else None)
  }

  /** CellScores cell by cell: the score of a blank cell, none for a taken one. */
  lemma CellScoresAt(b: Board)
    ensures forall k :: 0 <= k < 9 ==>
      CellScores(b)[k] == if b[k] == Empty then Some(ChildValue(b, true, k)) else None
  {
  }

  /** best_move's loop once cells k..8 have been scanned, from running best score
      `bestScore` and running choice `move`; the result is the final pair. A cell
      replaces the choice only when its score is strictly greater. */
  function BestFrom(scores: seq<Option<int>>, k: nat, bestScore: int, move: Option<Cell>): (int, Option<Cell>)
    requires |scores| == 9 && k <= 9
    decreases 9 - k
  {
    if k == 9 then (bestScore, move)
    else if scores[k].Some? && scores[k].value > bestScore then
      BestFrom(scores, k + 1, scores[k].value, Some(CellAt(k)))
    else
      BestFrom(scores, k + 1, bestScore, move)
  }

  /** best_move: the first blank cell, in row-major order, whose score after O marks it is maximal. */
  function BestMove(b: Board): Option<Cell>
  {
    BestFrom(CellScores(b), 0, NegInf, None).1
  }

  /** No cell among the first k has a score: all of them were taken. */
  predicate NoneScored(scores: seq<Option<int>>, k: nat)
    requires k <= |scores|
  {
    forall j :: 0 <= j < k ==> scores[j].None?
  }

  /** Among the first k cells, cell i has score best, no cell scores more, and every
      earlier cell scores strictly less. */
  predicate FirstBest(scores: seq<Option<int>>, k: nat, i: nat, best: int)
    requires k <= |scores|
  {
    i < k && scores[i] == Some(best) &&
    (forall j :: 0 <= j < k && scores[j].Some? ==> scores[j].value <= best) &&
    (forall j :: 0 <= j < i && scores[j].Some? ==> scores[j].value < best)
  }

  /** What the running pair of best_move means once cells 0..k-1 have been scanned.
      Its two cases are NoneScored(scores, k) and FirstBest(scores, k, Index(c.0, c.1), bestScore)
      written out, which keeps the loop proofs of Game.BestMove small. */
  predicate ChoiceSoFar(scores: seq<Option<int>>, k: nat, bestScore: int, move: Option<Cell>)
    requires |scores| == 9 && k <= 9
  {
    match move
    case None => bestScore == NegInf && forall j :: 0 <= j < k ==> scores[j].None?
    case Some(c) =>
      c.0 < 3 && c.1 < 3 && Index(c.0, c.1) < k && scores[Index(c.0, c.1)] == Some(bestScore) &&
      (forall j :: 0 <= j < k && scores[j].Some? ==> scores[j].value <= bestScore) &&
      (forall j :: 0 <= j < Index(c.0, c.1) && scores[j].Some? ==> scores[j].value < bestScore)
  }

  /** Scores above the -inf sentinel, as every minimax score is. */
  predicate AboveSentinel(scores: seq<Option<int>>)
  {
    forall j :: 0 <= j < |scores| && scores[j].Some? ==> scores[j].value > NegInf
  }

  /** A blank cell whose score is strictly greater than the running best becomes the choice. */
  lemma {:induction false} ChoiceTake(scores: seq<Option<int>>, k: nat, bestScore: int, move: Option<Cell>)
    requires |scores| == 9 && k < 9
    requires ChoiceSoFar(scores, k, bestScore, move)
    requires scores[k].Some? && scores[k].value > bestScore
    ensures ChoiceSoFar(scores, k + 1, scores[k].value, Some(CellAt(k)))
  {
    var c := CellAt(k);
    assert Index(c.0, c.1) == k;
    assert forall j :: 0 <= j < k && scores[j].Some? ==> scores[j].value <= bestScore by {
      if move.Some? {
        assert forall j :: 0 <= j < k && scores[j].Some? ==> scores[j].value <= bestScore;
      }
    }
  }

  /** A taken cell extends a scan in which every cell so far was taken. */
  lemma {:induction false} NoneScoredStep(scores: seq<Option<int>>, k: nat)
    requires k < |scores| && NoneScored(scores, k) && scores[k].None?
    ensures NoneScored(scores, k + 1)
  {
    forall j | 0 <= j < k + 1 ensures scores[j].None? {
      if j < k { assert scores[j].None?; }
    }
  }

  /** A cell that does not score strictly more than the running best leaves the best
      cell as it was. */
  lemma {:induction false} FirstBestKeep(scores: seq<Option<int>>, k: nat, i: nat, best: int)
    requires k < |scores| && FirstBest(scores, k, i, best)
    requires !(scores[k].Some? && scores[k].value > best)
    ensures FirstBest(scores, k + 1, i, best)
  {
    forall j | 0 <= j < k + 1 && scores[j].Some? ensures scores[j].value <= best {
      if j < k { assert scores[j].value <= best; }
    }
  }

  /** A taken cell, or one whose score is not strictly greater, leaves the choice as it was;
      so of two equal scores the earlier cell is kept. */
  lemma {:induction false} ChoiceSkip(scores: seq<Option<int>>, k: nat, bestScore: int, move: Option<Cell>)
    requires |scores| == 9 && k < 9 && AboveSentinel(scores)
    requires ChoiceSoFar(scores, k, bestScore, move)
    requires !(scores[k].Some? && scores[k].value > bestScore)
    ensures ChoiceSoFar(scores, k + 1, bestScore, move)
  {
    match move
    case None =>
      assert scores[k].None?;
      NoneScoredStep(scores, k);
    case Some(c) =>
      FirstBestKeep(scores, k, Index(c.0, c.1), bestScore);
  }

  /** Running best_move's loop to the end keeps the meaning of its running pair. */
  lemma {:induction false} BestFromKeepsChoice(scores: seq<Option<int>>, k: nat, bestScore: int, move: Option<Cell>)
    requires |scores| == 9 && k <= 9 && AboveSentinel(scores)
    requires ChoiceSoFar(scores, k, bestScore, move)
    ensures ChoiceSoFar(scores, 9, BestFrom(scores, k, bestScore, move).0, BestFrom(scores, k, bestScore, move).1)
    decreases 9 - k
  {
    if k < 9 {
      if scores[k].Some? && scores[k].value > bestScore {
        ChoiceTake(scores, k, bestScore, move);
        BestFromKeepsChoice(scores, k + 1, scores[k].value, Some(CellAt(k)));
      } else {
        ChoiceSkip(scores, k, bestScore, move);
        BestFromKeepsChoice(scores, k + 1, bestScore, move);
      }
    }
  }

  /** No cell scores the -inf sentinel, so the first blank cell always replaces the empty choice. */
  lemma {:induction false} CellScoresAboveSentinel(b: Board)
    ensures AboveSentinel(CellScores(b))
  {
    forall j | 0 <= j < 9 && b[j] == Empty
      ensures ChildValue(b, true, j) > NegInf
    {
      ValueRange(b[j := O], false);
    }
  }

  /** The final choice of best_move over the scores of b, with its score. */
  lemma {:induction false} BestMoveChoice(b: Board)
    ensures ChoiceSoFar(CellScores(b), 9, BestFrom(CellScores(b), 0, NegInf, None).0, BestMove(b))
  {
    CellScoresAboveSentinel(b);
    BestFromKeepsChoice(CellScores(b), 0, NegInf, None);
  }

  /** The meaning of a finished scan pins the choice down: it is the first maximal cell, or None. */
  lemma {:induction false} ChoiceIsUnique(scores: seq<Option<int>>, s1: int, m1: Option<Cell>, s2: int, m2: Option<Cell>)
    requires |scores| == 9 && ChoiceSoFar(scores, 9, s1, m1) && ChoiceSoFar(scores, 9, s2, m2)
    ensures m1 == m2
  {
    if m1.Some? && m2.Some? {
      var i1 := Index(m1.value.0, m1.value.1);
      var i2 := Index(m2.value.0, m2.value.1);
      assert !(i1 < i2) && !(i2 < i1);
    }
  }

  /** Any finished scan whose running pair keeps its meaning ends on best_move's choice. */
  lemma {:induction false} ChoiceIsBestMove(b: Board, bestScore: int, move: Option<Cell>)
    requires ChoiceSoFar(CellScores(b), 9, bestScore, move)
    ensures move == BestMove(b)
  {
    BestMoveChoice(b);
    ChoiceIsUnique(CellScores(b), bestScore, move, BestFrom(CellScores(b), 0, NegInf, None).0, BestMove(b));
  }

  /** best_move returns None exactly when no cell is blank. */
  lemma {:induction false} BestMoveNoneIffFull(b: Board)
    ensures BestMove(b) == None <==> IsFull(b)
  {
    BestMoveChoice(b);
  }

  /** A cell best_move returns was blank, scores maximally for O, and every blank
      cell before it in row-major order scores strictly less. */
  lemma {:induction false} BestMoveIsFirstMaximal(b: Board, row: nat, col: nat)
    ensures BestMove(b) == Some((row, col)) ==>
      row < 3 && col < 3 && b[Index(row, col)] == Empty &&
      (forall j :: 0 <= j < 9 && b[j] == Empty ==>
        ChildValue(b, true, j) <= ChildValue(b, true, Index(row, col))) &&
      (forall j :: 0 <= j < Index(row, col) && b[j] == Empty ==>
        ChildValue(b, true, j) < ChildValue(b, true, Index(row, col)))
  {
    BestMoveChoice(b);
    CellScoresAt(b);
  }

  /** On a position that is not over, the move best_move picks is worth the maximising value of the position. */
  lemma {:induction false} BestMoveAttainsValue(b: Board)
    requires !Terminal(b)
    ensures BestMove(b).Some?
    ensures BestMove(b).value.0 < 3 && BestMove(b).value.1 < 3
    ensures b[Index(BestMove(b).value.0, BestMove(b).value.1)] == Empty
    ensures ChildValue(b, true, Index(BestMove(b).value.0, BestMove(b).value.1)) == Value(b, true)
  {
    BestMoveNoneIffFull(b);
    var (row, col) := BestMove(b).value;
    BestMoveIsFirstMaximal(b, row, col);
    ValueIsOptimal(b, true);
    var j :| 0 <= j < 9 && b[j] == Empty && Value(b, true) == ChildValue(b, true, j);
    assert ChildValue(b, true, Index(row, col)) <= Value(b, true);
    assert ChildValue(b, true, j) <= ChildValue(b, true, Index(row, col));
  }
}
