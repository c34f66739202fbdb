/** The search engine: the game value of a position under perfect play, and
    the memoized minimax that computes it in place on the board
    (tictactoe.py, lines 54-86). */
module Search {
  import opened Board
  import opened MemoKey

  /** The mark the side to move places. As in the source, any turn other
      than AI is played as HUMAN. */
  function Mark(turn: Cell): Cell
  {
    if turn == AI then AI else Human
  }

  /** The turn after this one. */
  function Next(turn: Cell): Cell
  {
    if turn == AI then Human else AI
  }

  /** The initial `best`: below every score for AI, above every score for HUMAN. */
  function Start(turn: Cell): int
  {
    if turn == AI then -10 else 10
  }

  function Max(a: int, b: int): int
  {
    if a >= b then a else b
  }

  function Min(a: int, b: int): int
  {
    if a <= b then a else b
  }

  /** AI maximizes, HUMAN minimizes. */
  function Combine(turn: Cell, best: int, score: int): int
  {
    if turn == AI then Max(best, score) else Min(best, score)
  }

  /** Every move of ms is an empty cell of s. */
  predicate ValidMoves(s: seq<Cell>, ms: seq<nat>)
    requires |s| == 9
  {
    forall j :: 0 <= j < |ms| ==> ms[j] < 9 && s[ms[j]] == Empty
  }

  /** The game value of s with `turn` to move: +1 if AI wins under perfect
      play, -1 if HUMAN does, 0 for a draw. The recursion is on the number
      of empty cells. */
  function Value(s: seq<Cell>, turn: Cell): int
    requires |s| == 9
    decreases CountEmpty(s), 1, 0
  {
    if Winner(s) == Some(AI) then 1
    else if Winner(s) == Some(Human) then -1
    else if IsDraw(s) then 0
    else ChildrenBest(s, turn, AvailableMoves(s))
  }

  /** `best` after the search loop has visited the moves ms in order. */
  function ChildrenBest(s: seq<Cell>, turn: Cell, ms: seq<nat>): int
    requires |s| == 9 && ValidMoves(s, ms)
    decreases CountEmpty(s), 0, |ms|
  {
    if ms == [] then Start(turn)
    else
      var m := ms[|ms| - 1];
      CountEmptyPlace(s, m, Mark(turn));
      Combine(turn, ChildrenBest(s, turn, ms[..|ms| - 1]), Value(s[m := Mark(turn)], Next(turn)))
  }

  /** The value of the position reached by the side to move playing m. */
  function ChildValue(s: seq<Cell>, turn: Cell, m: nat): int
    requires |s| == 9 && m < 9 && s[m] == Empty
  {
    Value(s[m := Mark(turn)], Next(turn))
  }

  /** One more iteration of the search loop combines `best` with the value of
      the next move. */
  lemma ChildrenBestStep(s: seq<Cell>, turn: Cell, ms: seq<nat>, i: nat)
    requires |s| == 9 && ValidMoves(s, ms) && i < |ms|
    ensures ChildrenBest(s, turn, ms[..i + 1])
      == Combine(turn, ChildrenBest(s, turn, ms[..i]), ChildValue(s, turn, ms[i]))
  {
    assert ms[..i + 1][..i] == ms[..i];
  }

  /** On a board where the game goes on, the value is the loop's `best` over
      the available moves. */
  lemma ValueUnfold(s: seq<Cell>, turn: Cell)
    requires |s| == 9 && !Terminal(s)
    ensures Value(s, turn) == ChildrenBest(s, turn, AvailableMoves(s))
  {
  }

  /** Every game value is -1, 0 or 1. */
  lemma {:induction false} ValueRange(s: seq<Cell>, turn: Cell)
    requires |s| == 9
    ensures -1 <= Value(s, turn) <= 1
    decreases CountEmpty(s), 1, 0
  {
    if Winner(s).None? && !IsDraw(s) {
      NonTerminalHasMove(s);
      ChildrenBestRange(s, turn, AvailableMoves(s));
    }
  }

  /** Over at least one move, the loop's `best` is -1, 0 or 1. */
  lemma {:induction false} ChildrenBestRange(s: seq<Cell>, turn: Cell, ms: seq<nat>)
    requires |s| == 9 && ValidMoves(s, ms) && ms != []
    ensures -1 <= ChildrenBest(s, turn, ms) <= 1
    decreases CountEmpty(s), 0, |ms|
  {
    var m := ms[|ms| - 1];
    CountEmptyPlace(s, m, Mark(turn));
    ValueRange(s[m := Mark(turn)], Next(turn));
    if |ms| > 1 {
      ChildrenBestRange(s, turn, ms[..|ms| - 1]);
    }
  }

  /** The loop's `best` is at least (AI) or at most (HUMAN) the value of
      every move it has visited. */
  lemma {:induction false} ChildrenBestBound(s: seq<Cell>, turn: Cell, ms: seq<nat>)
    requires |s| == 9 && ValidMoves(s, ms)
    ensures turn == AI ==>
      forall j :: 0 <= j < |ms| ==> ChildValue(s, turn, ms[j]) <= ChildrenBest(s, turn, ms)
    ensures turn != AI ==>
      forall j :: 0 <= j < |ms| ==> ChildValue(s, turn, ms[j]) >= ChildrenBest(s, turn, ms)
  {
    if ms != [] {
      var n := |ms| - 1;
      var front := ms[..n];
      ChildrenBestBound(s, turn, front);
      assert forall i :: 0 <= i < n ==> ms[i] == front[i];
    }
  }

  /** Over at least one move, some visited move attains the loop's `best`. */
  lemma {:induction false} ChildrenBestAttained(s: seq<Cell>, turn: Cell, ms: seq<nat>)
    requires |s| == 9 && ValidMoves(s, ms) && ms != []
    ensures exists j :: 0 <= j < |ms| && ChildValue(s, turn, ms[j]) == ChildrenBest(s, turn, ms)
  {
    var n := |ms| - 1;
    var m := ms[n];
    var front := ms[..n];
    CountEmptyPlace(s, m, Mark(turn));
    ValueRange(s[m := Mark(turn)], Next(turn));
    if n == 0 {
      assert ChildValue(s, turn, ms[0]) == ChildrenBest(s, turn, ms);
    } else {
      ChildrenBestAttained(s, turn, front);
      var j :| 0 <= j < |front| && ChildValue(s, turn, front[j]) == ChildrenBest(s, turn, front);
      if ChildrenBest(s, turn, ms) == ChildValue(s, turn, m) {
        assert ChildValue(s, turn, ms[n]) == ChildrenBest(s, turn, ms);
      } else {
        assert ms[j] == front[j];
        assert ChildValue(s, turn, ms[j]) == ChildrenBest(s, turn, ms);
      }
    }
  }

  /** The minimax recurrence, first half: on a board where the game goes on,
      the value is at least every move's value when AI is to move (AI
      maximizes) and at most every move's value when HUMAN is (HUMAN minimizes). */
  lemma ValueIsMinimax(s: seq<Cell>, turn: Cell)
    requires |s| == 9 && !Terminal(s)
    ensures turn == AI ==>
      forall m :: 0 <= m < 9 && s[m] == Empty ==> ChildValue(s, turn, m) <= Value(s, turn)
    ensures turn != AI ==>
      forall m :: 0 <= m < 9 && s[m] == Empty ==> ChildValue(s, turn, m) >= Value(s, turn)
  {
    var ms := AvailableMoves(s);
    ChildrenBestBound(s, turn, ms);
    forall m | 0 <= m < 9 && s[m] == Empty
      ensures turn == AI ==> ChildValue(s, turn, m) <= Value(s, turn)
      ensures turn != AI ==> ChildValue(s, turn, m) >= Value(s, turn)
    {
      var i := MoveIndex(s, m);
    }
  }

  /** The minimax recurrence, second half: on a board where the game goes on,
      some move attains the value, so the value is exactly the maximum (AI)
      or the minimum (HUMAN) over the moves. */
  lemma ValueAttained(s: seq<Cell>, turn: Cell)
    requires |s| == 9 && !Terminal(s)
    ensures exists m :: 0 <= m < 9 && s[m] == Empty && ChildValue(s, turn, m) == Value(s, turn)
  {
    var ms := AvailableMoves(s);
    NonTerminalHasMove(s);
    ChildrenBestAttained(s, turn, ms);
    ValueUnfold(s, turn);
    var j :| 0 <= j < |ms| && ChildValue(s, turn, ms[j]) == ChildrenBest(s, turn, ms);
    assert s[ms[j]] == Empty && ChildValue(s, turn, ms[j]) == Value(s, turn);
  }

  /** The memo table shared by one top-level search: key string to score. */
  class MemoTable {
    var entries: map<string, int>

    constructor ()
      ensures entries == map[]
    {
      entries := map[];
    }
  }

  /** Every entry of the memo holds the game value of the state its key names. */
  ghost predicate MemoSound(memo: map<string, int>)
  {
    forall s: seq<Cell>, t: Cell {:trigger BoardKey(s, t)} ::
      |s| == 9 && BoardKey(s, t) in memo ==> memo[BoardKey(s, t)] == Value(s, t)
  }

  /** Storing a state's game value under its key keeps the memo sound. */
  lemma StoreKeepsSound(memo: map<string, int>, s: seq<Cell>, t: Cell, v: int)
    requires MemoSound(memo) && |s| == 9 && v == Value(s, t)
    ensures MemoSound(memo[BoardKey(s, t) := v])
  {
    var m' := memo[BoardKey(s, t) := v];
    forall s2: seq<Cell>, t2: Cell | |s2| == 9 && BoardKey(s2, t2) in m'
      ensures m'[BoardKey(s2, t2)] == Value(s2, t2)
    {
      if BoardKey(s2, t2) == BoardKey(s, t) {
        BoardKeyInjective(s2, t2, s, t);
      }
    }
  }

  /** The memo only gains entries: every old key keeps its score. */
  ghost predicate Extends(memo: map<string, int>, old_memo: map<string, int>)
  {
    forall k :: k in old_memo ==> k in memo && memo[k] == old_memo[k]
  }

  /** `minimax`: the game value of the board with `turn` to move. Every
      placement is reverted, terminal boards and memo hits leave the memo
      alone, and the memo only gains entries, each of them a true game value. */
  method Minimax(b: array<Cell>, turn: Cell, memo: MemoTable) returns (score: int)
    requires b.Length == 9
    requires MemoSound(memo.entries)
    modifies b, memo
    ensures b[..] == old(b[..])
    ensures score == Value(old(b[..]), turn)
    ensures -1 <= score <= 1
    ensures Winner(old(b[..])) == Some(AI) ==> score == 1
    ensures Winner(old(b[..])) == Some(Human) ==> score == -1
    ensures IsDraw(old(b[..])) ==> score == 0
    ensures !Terminal(old(b[..])) && BoardKey(old(b[..]), turn) in old(memo.entries) ==>
      score == old(memo.entries)[BoardKey(old(b[..]), turn)]
    ensures MemoSound(memo.entries) && Extends(memo.entries, old(memo.entries))
    ensures !Terminal(old(b[..])) ==>
      BoardKey(old(b[..]), turn) in memo.entries && memo.entries[BoardKey(old(b[..]), turn)] == score
    ensures Terminal(old(b[..])) ==> memo.entries == old(memo.entries)
    ensures BoardKey(old(b[..]), turn) in old(memo.entries) ==> memo.entries == old(memo.entries)
    decreases CountEmpty(b[..]), 1
  {
    ghost var s := b[..];
    ValueRange(s, turn);
    var w := Winner(b[..]);
    if w == Some(AI) {
      return 1;
    }
    if w == Some(Human) {
      return -1;
    }
    if IsDraw(b[..]) {
      return 0;
    }

    var key := BoardKey(b[..], turn);
    if key in memo.entries {
      return memo.entries[key];
    }

    var moves := AvailableMoves(b[..]);
    var best;
    if turn == AI {
      best := MaxOverMoves(b, memo, moves);
    } else {
      best := MinOverMoves(b, turn, memo, moves);
    }
    StoreKeepsSound(memo.entries, s, turn, best);
    memo.entries := memo.entries[key := best];
    return best;
  }

  /** The AI branch of `minimax`: for each move, place AI, search with HUMAN
      to move, revert, and keep the maximum. */
  method MaxOverMoves(b: array<Cell>, memo: MemoTable, moves: seq<nat>) returns (best: int)
    requires b.Length == 9 && ValidMoves(b[..], moves)
    requires MemoSound(memo.entries)
    modifies b, memo
    ensures b[..] == old(b[..])
    ensures best == ChildrenBest(old(b[..]), AI, moves)
    ensures MemoSound(memo.entries) && Extends(memo.entries, old(memo.entries))
    decreases CountEmpty(b[..]), 0
  {
    ghost var s := b[..];
    best := -10;
    var i := 0;
    while i < |moves|
      invariant 0 <= i <= |moves|
      invariant b[..] == s
      invariant MemoSound(memo.entries) && Extends(memo.entries, old(memo.entries))
      invariant best == ChildrenBest(s, AI, moves[..i])
    {
      var m := moves[i];
      b[m] := AI;
      assert b[..] == s[m := AI];
      CountEmptyPlace(s, m, AI);
      var score := Minimax(b, Human, memo);
      b[m] := Empty;
      PlaceRevert(s, m, AI);
      assert b[..] == s;
      ChildrenBestStep(s, AI, moves, i);
      best := Max(best, score);
      i := i + 1;
    }
    assert moves[..i] == moves;
  }

  /** The HUMAN branch of `minimax`: for each move, place HUMAN, search with
      AI to move, revert, and keep the minimum. */
  method MinOverMoves(b: array<Cell>, ghost turn: Cell, memo: MemoTable, moves: seq<nat>)
    returns (best: int)
    requires turn != AI
    requires b.Length == 9 && ValidMoves(b[..], moves)
    requires MemoSound(memo.entries)
    modifies b, memo
    ensures b[..] == old(b[..])
    ensures best == ChildrenBest(old(b[..]), turn, moves)
    ensures MemoSound(memo.entries) && Extends(memo.entries, old(memo.entries))
    decreases CountEmpty(b[..]), 0
  {
    ghost var s := b[..];
    best := 10;
    var i := 0;
    while i < |moves|
      invariant 0 <= i <= |moves|
      invariant b[..] == s
      invariant MemoSound(memo.entries) && Extends(memo.entries, old(memo.entries))
      invariant best == ChildrenBest(s, turn, moves[..i])
    {
      var m := moves[i];
      b[m] := Human;
      assert b[..] == s[m := Human];
      CountEmptyPlace(s, m, Human);
      var score := Minimax(b, AI, memo);
      b[m] := Empty;
      PlaceRevert(s, m, Human);
      assert b[..] == s;
      ChildrenBestStep(s, turn, moves, i);
      best := Min(best, score);
      i := i + 1;
    }
    assert moves[..i] == moves;
  }
}
