/** The move selector (tictactoe.py, lines 88-173): the perfect move of
    `best_ai_move`, and `choose_ai_move`, which plays it or, at lower
    difficulty, deliberately plays another move. */
module Selector {
  import opened Board
  import opened Search

  /** Where the scan of `best_ai_move` stands after some of the moves: still
      scanning with the best score and move so far, or stopped early on an
      immediate win. */
  datatype Scan = Scanning(bestScore: int, bestMove: int) | Won(move: nat)

  /** The scan state after visiting the moves ms in order, starting from
      `best_score = -10`, `best_move = -1`. */
  function ScanMoves(s: seq<Cell>, ms: seq<nat>): Scan
    requires |s| == 9 && ValidMoves(s, ms)
  {
    if ms == [] then Scanning(-10, -1)
    else
      var m := ms[|ms| - 1];
      match ScanMoves(s, ms[..|ms| - 1])
      case Won(w) => Won(w)
      case Scanning(bestScore, bestMove) =>
        if WinsAt(s, AI, m) then Won(m)
        else
          var score := ChildValue(s, AI, m);
          if score > bestScore then Scanning(score, m) else Scanning(bestScore, bestMove)
  }

  /** The move `best_ai_move` returns on board s. */
  function BestMove(s: seq<Cell>): int
    requires |s| == 9
  {
    match ScanMoves(s, AvailableMoves(s))
    case Won(m) => m
    case Scanning(_, m) => m
  }

  /** One more iteration of the scan, when the move wins at once. */
  lemma ScanStepWon(s: seq<Cell>, ms: seq<nat>, i: nat, bestScore: int, bestMove: int)
    requires |s| == 9 && ValidMoves(s, ms) && i < |ms|
    requires ScanMoves(s, ms[..i]) == Scanning(bestScore, bestMove) && WinsAt(s, AI, ms[i])
    ensures ScanMoves(s, ms[..i + 1]) == Won(ms[i])
  {
    assert ms[..i + 1][..i] == ms[..i];
  }

  /** One more iteration of the scan, when the move is scored by minimax. */
  lemma ScanStepScore(s: seq<Cell>, ms: seq<nat>, i: nat, bestScore: int, bestMove: int)
    requires |s| == 9 && ValidMoves(s, ms) && i < |ms|
    requires ScanMoves(s, ms[..i]) == Scanning(bestScore, bestMove) && !WinsAt(s, AI, ms[i])
    ensures ScanMoves(s, ms[..i + 1]) ==
      if ChildValue(s, AI, ms[i]) > bestScore then Scanning(ChildValue(s, AI, ms[i]), ms[i])
      else Scanning(bestScore, bestMove)
  {
    assert ms[..i + 1][..i] == ms[..i];
  }

  /** One more iteration of a scan that has already stopped. */
  lemma ScanStepStopped(s: seq<Cell>, ms: seq<nat>, i: nat)
    requires |s| == 9 && ValidMoves(s, ms) && i < |ms|
    requires ScanMoves(s, ms[..i]).Won?
    ensures ScanMoves(s, ms[..i + 1]) == ScanMoves(s, ms[..i])
  {
    assert ms[..i + 1][..i] == ms[..i];
  }

  /** Once the scan has stopped on a win, the remaining moves do not change it:
      this is the early return. */
  lemma {:induction false} ScanWonStays(s: seq<Cell>, ms: seq<nat>, k: nat)
    requires |s| == 9 && ValidMoves(s, ms) && k <= |ms|
    requires ScanMoves(s, ms[..k]).Won?
    ensures ScanMoves(s, ms) == ScanMoves(s, ms[..k])
    decreases |ms| - k
  {
    if k < |ms| {
      ScanStepStopped(s, ms, k);
      ScanWonStays(s, ms, k + 1);
    } else {
      assert ms[..k] == ms;
    }
  }

  /** While the scan goes on, no visited move wins at once. */
  lemma {:induction false} ScanningNoWin(s: seq<Cell>, ms: seq<nat>)
    requires |s| == 9 && ValidMoves(s, ms)
    requires ScanMoves(s, ms).Scanning?
    ensures forall j :: 0 <= j < |ms| ==> !WinsAt(s, AI, ms[j])
  {
    if ms != [] {
      var n := |ms| - 1;
      var front := ms[..n];
      assert front == ms[..n];
      ScanningNoWin(s, front);
      assert forall j :: 0 <= j < n ==> ms[j] == front[j];
    }
  }

  /** While the scan goes on, the best move is a visited move whose score is
      the largest, every earlier move scoring strictly less (the strict `>`
      keeps the first maximum); before any move it is -1. */
  lemma {:induction false} ScanningBest(s: seq<Cell>, ms: seq<nat>)
    requires |s| == 9 && ValidMoves(s, ms) && Ascending(ms)
    requires ScanMoves(s, ms).Scanning?
    ensures var bestScore, bestMove := ScanMoves(s, ms).bestScore, ScanMoves(s, ms).bestMove;
      && (ms == [] ==> bestMove == -1)
      && (ms != [] ==>
           && bestMove in ms && 0 <= bestMove < 9 && s[bestMove] == Empty
           && bestScore == ChildValue(s, AI, bestMove)
           && forall j :: 0 <= j < |ms| ==>
                && ChildValue(s, AI, ms[j]) <= bestScore
                && (ms[j] < bestMove ==> ChildValue(s, AI, ms[j]) < bestScore))
  {
    if ms != [] {
      var n := |ms| - 1;
      var m := ms[n];
      var front := ms[..n];
      assert Ascending(front);
      assert front == ms[..n];
      ScanningBest(s, front);
      assert forall j :: 0 <= j < n ==> ms[j] == front[j] && ms[j] < m;
      CountEmptyPlace(s, m, AI);
      ValueRange(s[m := AI], Human);
    }
  }

  /** A scan that stopped did so on the first move that wins at once. */
  lemma {:induction false} WonFacts(s: seq<Cell>, ms: seq<nat>)
    requires |s| == 9 && ValidMoves(s, ms) && Ascending(ms)
    requires ScanMoves(s, ms).Won?
    ensures var w := ScanMoves(s, ms).move;
      && w in ms && w < 9 && s[w] == Empty && WinsAt(s, AI, w)
      && forall j :: 0 <= j < |ms| && ms[j] < w ==> !WinsAt(s, AI, ms[j])
  {
    var n := |ms| - 1;
    var m := ms[n];
    var front := ms[..n];
    assert Ascending(front);
    assert front == ms[..n];
    assert forall j :: 0 <= j < n ==> ms[j] == front[j] && ms[j] < m;
    if ScanMoves(s, front).Won? {
      WonFacts(s, front);
    } else {
      ScanningNoWin(s, front);
    }
  }

  /** `best_ai_move`: on a board with an empty cell it returns one of the
      empty cells (and -1 on a full board); if some move wins at once it is
      the lowest such move; otherwise it is the lowest move with the highest
      minimax score. */
  lemma BestMoveCorrect(s: seq<Cell>)
    requires |s| == 9
    ensures AvailableMoves(s) == [] ==> BestMove(s) == -1
    ensures AvailableMoves(s) != [] ==>
      0 <= BestMove(s) < 9 && s[BestMove(s)] == Empty && BestMove(s) in AvailableMoves(s)
    ensures (exists m :: 0 <= m < 9 && s[m] == Empty && WinsAt(s, AI, m)) ==>
      0 <= BestMove(s) < 9 && s[BestMove(s)] == Empty && WinsAt(s, AI, BestMove(s)) &&
      forall m :: 0 <= m < BestMove(s) && s[m] == Empty ==> !WinsAt(s, AI, m)
    ensures (AvailableMoves(s) != [] &&
             forall m :: 0 <= m < 9 && s[m] == Empty ==> !WinsAt(s, AI, m)) ==>
      0 <= BestMove(s) < 9 && s[BestMove(s)] == Empty &&
      forall m :: 0 <= m < 9 && s[m] == Empty ==>
        && ChildValue(s, AI, m) <= ChildValue(s, AI, BestMove(s))
        && (m < BestMove(s) ==> ChildValue(s, AI, m) < ChildValue(s, AI, BestMove(s)))
  {
    var ms := AvailableMoves(s);
    if ScanMoves(s, ms).Won? {
      WonFacts(s, ms);
    } else {
      ScanningNoWin(s, ms);
      ScanningBest(s, ms);
    }
    forall m | 0 <= m < 9 && s[m] == Empty
      ensures exists j :: 0 <= j < |ms| && ms[j] == m
    {
      var j := MoveIndex(s, m);
    }
  }

  /** The immediate-win priority on a concrete board: AI holds 0 and 1, HUMAN
      holds 3 and 4, and the selector completes the top row at 2. */
  lemma ImmediateWinExample(s: seq<Cell>)
    requires s == [AI, AI, Empty, Human, Human, Empty, Empty, Empty, Empty]
    ensures BestMove(s) == 2
  {
    assert WinsAt(s, AI, 2);
    BestMoveCorrect(s);
  }

  /** `best_ai_move`: tries every empty cell in ascending order, returns at
      once on an immediate win, otherwise keeps the move with the strictly
      greatest minimax score; one memo serves the whole call. */
  method BestAiMove(b: array<Cell>) returns (move: int)
    requires b.Length == 9
    modifies b
    ensures b[..] == old(b[..])
    ensures move == BestMove(old(b[..]))
  {
    ghost var s := b[..];
    var memo := new MemoTable();
    var bestScore := -10;
    var bestMove: int := -1;
    var moves := AvailableMoves(b[..]);
    var i := 0;
    while i < |moves|
      invariant 0 <= i <= |moves|
      invariant b[..] == s
      invariant MemoSound(memo.entries)
      invariant ScanMoves(s, moves[..i]) == Scanning(bestScore, bestMove)
    {
      var m := moves[i];
      b[m] := AI;
      assert b[..] == s[m := AI];
      if Winner(b[..]) == Some(AI) {
        b[m] := Empty;
        PlaceRevert(s, m, AI);
        ScanStepWon(s, moves, i, bestScore, bestMove);
        ScanWonStays(s, moves, i + 1);
        return m;
      }
      var score := Minimax(b, Human, memo);
      b[m] := Empty;
      PlaceRevert(s, m, AI);
      ScanStepScore(s, moves, i, bestScore, bestMove);
      if score > bestScore {
        bestScore := score;
        bestMove := m;
      }
      i := i + 1;
    }
    assert moves[..i] == moves;
    return bestMove;
  }

  /** The difficulty levels; only "hard" changes which branch is taken, the
      other two differ in a probability that is not modelled here. */
  datatype Difficulty = Easy | Medium | Hard

  /** `[m for m in moves if m != best]`. */
  function OtherMoves(moves: seq<nat>, best: int): (r: seq<nat>)
    ensures forall x {:trigger x in r} :: x in r <==> x in moves && x != best
  {
    if moves == [] then []
    else (if moves[0] != best then [moves[0]] else []) + OtherMoves(moves[1..], best)
  }

  /** The decision of `choose_ai_move` once `best` and the moves are known.
      `playBest` stands for the uniform draw falling below the difficulty's
      probability of perfect play; `pick` stands for the index `random.choice`
      draws, taken modulo the number of other moves. None is the IndexError
      `random.choice` raises when there is no other move. */
  function Decide(moves: seq<nat>, best: int, difficulty: Difficulty, playBest: bool, pick: nat)
    : (r: Option<int>)
    ensures difficulty == Hard ==> r == Some(best)
    ensures |moves| == 1 ==> r == Some(best)
    ensures playBest ==> r == Some(best)
    ensures difficulty != Hard && |moves| != 1 && !playBest ==>
      && (r.Some? <==> exists j :: 0 <= j < |moves| && moves[j] != best)
      && (r.Some? ==> r.value in moves && r.value != best)
  {
    if difficulty == Hard then Some(best)
    else if |moves| == 1 then Some(best)
    else if playBest then Some(best)
    else
      var others := OtherMoves(moves, best);
      if others == [] then
        assert forall j :: 0 <= j < |moves| ==> moves[j] !in others;
        None
      else
        assert others[pick % |others|] in others;
        Some(others[pick % |others|])
  }

  /** The mistake branch draws from the other moves at index `pick` modulo
      their number. */
  lemma DecideMistake(moves: seq<nat>, best: int, difficulty: Difficulty, pick: nat)
    requires difficulty != Hard && |moves| != 1 && OtherMoves(moves, best) != []
    ensures Decide(moves, best, difficulty, false, pick)
      == Some(OtherMoves(moves, best)[pick % |OtherMoves(moves, best)|])
  {
  }

  /** An index below the length is its own remainder. */
  lemma IndexModSmall(j: nat, n: nat)
    requires j < n
    ensures j % n == j
  {
  }

  /** The mistake branch can return every move `random.choice` might draw:
      each other move is the result for some `pick`. */
  lemma MistakeReachesEveryOther(moves: seq<nat>, best: int, difficulty: Difficulty, x: nat)
    requires difficulty != Hard && |moves| != 1 && x in OtherMoves(moves, best)
    ensures exists pick: nat :: Decide(moves, best, difficulty, false, pick) == Some(x)
  {
    var others := OtherMoves(moves, best);
    var j :| 0 <= j < |others| && others[j] == x;
    DecideMistake(moves, best, difficulty, j);
    IndexModSmall(j, |others|);
  }

  /** On a board with two or more empty cells the mistake branch always finds
      another move: an empty cell that is not the perfect move. */
  lemma MistakeAvailable(s: seq<Cell>, difficulty: Difficulty, pick: nat)
    requires |s| == 9 && |AvailableMoves(s)| >= 2 && difficulty != Hard
    ensures var r := Decide(AvailableMoves(s), BestMove(s), difficulty, false, pick);
      && r.Some? && 0 <= r.value < 9 && s[r.value] == Empty && r.value != BestMove(s)
  {
    var ms := AvailableMoves(s);
    assert ms[0] != ms[1];
    var r := Decide(ms, BestMove(s), difficulty, false, pick);
    assert r.value in ms;
  }

  /** `choose_ai_move`: computes the perfect move, then plays it or makes a
      deliberate mistake, as `Decide` says. */
  method ChooseAiMove(b: array<Cell>, difficulty: Difficulty, playBest: bool, pick: nat)
    returns (r: Option<int>)
    requires b.Length == 9
    modifies b
    ensures b[..] == old(b[..])
    ensures r == Decide(AvailableMoves(old(b[..])), BestMove(old(b[..])), difficulty, playBest, pick)
  {
    var best := BestAiMove(b);
    if difficulty == Hard {
      return Some(best);
    }
    var moves := AvailableMoves(b[..]);
    if |moves| == 1 {
      return Some(best);
    }
    if playBest {
      return Some(best);
    }
    var others := OtherMoves(moves, best);
    if others == [] {
      return None;
    }
    return Some(others[pick % |others|]);
  }
}
