/** The board model: nine cells, the eight winning lines, and the queries the
    game loop and the search ask of a board (tictactoe.py, lines 8-48). */
module Board {

  datatype Option<T> = None | Some(value: T)

  /** The content of one cell. HUMAN plays 'O', AI plays 'X'; a player's mark
      and "whose turn it is" share this type, as in the source. */
  datatype Cell = Empty | Human | AI

  /** A position on the 3x3 board, row = i / 3, column = i % 3. */
  type Index = i: nat | i < 9

  /** The eight winning lines, in the order they are scanned: three rows,
      three columns, two diagonals. */
  const WinLines: seq<(Index, Index, Index)> :=
    [(0, 1, 2), (3, 4, 5), (6, 7, 8),
     (0, 3, 6), (1, 4, 7), (2, 5, 8),
     (0, 4, 8), (2, 4, 6)]

  /** A triple of positions: one winning line. */
  type Line = (Index, Index, Index)

  /** Line l is complete: its three cells hold one and the same mark. */
  predicate Complete(s: seq<Cell>, l: Line)
    requires |s| == 9
  {
    s[l.0] != Empty && s[l.0] == s[l.1] && s[l.0] == s[l.2]
  }

  /** Mark p fills the whole of line l. */
  predicate Owns(s: seq<Cell>, l: Line, p: Cell)
    requires |s| == 9
  {
    Complete(s, l) && s[l.0] == p
  }

  /** The scan of `winner` over lines: the mark of the first complete line. */
  function WinnerOf(s: seq<Cell>, lines: seq<Line>): (r: Option<Cell>)
    requires |s| == 9
    ensures r.Some? ==> r.value != Empty
  {
    if lines == [] then None
    else
      var (a, c, d) := lines[0];
      if s[a] != Empty && s[a] == s[c] && s[c] == s[d] then Some(s[a])
      else WinnerOf(s, lines[1..])
  }

  /** `winner`: the mark occupying a complete line, None if there is none. */
  function Winner(s: seq<Cell>): (r: Option<Cell>)
    requires |s| == 9
    ensures r.Some? ==> r.value != Empty
  {
    WinnerOf(s, WinLines)
  }

  /** The scan finds a mark exactly when one of the lines is complete, and
      then it is the owner of the first complete line. */
  lemma {:induction false} WinnerOfMeaning(s: seq<Cell>, lines: seq<Line>)
    requires |s| == 9
    ensures var r := WinnerOf(s, lines);
      && (r.Some? <==> exists j :: 0 <= j < |lines| && Complete(s, lines[j]))
      && (r.Some? ==>
           exists j :: 0 <= j < |lines| && Owns(s, lines[j], r.value) &&
             forall i :: 0 <= i < j ==> !Complete(s, lines[i]))
  {
    if lines != [] {
      if Complete(s, lines[0]) {
        assert Owns(s, lines[0], s[lines[0].0]);
      } else {
        var rest := lines[1..];
        WinnerOfMeaning(s, rest);
        assert forall j :: 1 <= j < |lines| ==> lines[j] == rest[j - 1];
        if WinnerOf(s, rest).Some? {
          var j :| 0 <= j < |rest| && Owns(s, rest[j], WinnerOf(s, rest).value) &&
            forall i :: 0 <= i < j ==> !Complete(s, rest[i]);
          assert Owns(s, lines[j + 1], WinnerOf(s, lines).value);
        }
      }
    }
  }

  /** `winner` returns None exactly when no line is complete; otherwise it
      returns a non-empty mark that fills a line, the first complete one. */
  lemma WinnerMeaning(s: seq<Cell>)
    requires |s| == 9
    ensures Winner(s).None? <==> forall k :: 0 <= k < |WinLines| ==> !Complete(s, WinLines[k])
    ensures Winner(s).Some? ==> Winner(s).value != Empty
    ensures Winner(s).Some? ==>
      exists j :: 0 <= j < |WinLines| && Owns(s, WinLines[j], Winner(s).value) &&
        forall i :: 0 <= i < j ==> !Complete(s, WinLines[i])
  {
    WinnerOfMeaning(s, WinLines);
  }

  /** The sequence is strictly ascending. */
  predicate Ascending(r: seq<nat>)
  {
    forall j, k :: 0 <= j < k < |r| ==> r[j] < r[k]
  }

  /** The indices from i on whose cell is empty, in ascending order. */
  function AvailableFrom(s: seq<Cell>, i: nat): (r: seq<nat>)
    requires i <= |s|
    ensures forall j :: 0 <= j < |r| ==> i <= r[j] < |s| && s[r[j]] == Empty
    ensures Ascending(r)
    ensures forall m {:trigger m in r} :: m in r <==> i <= m < |s| && s[m] == Empty
    decreases |s| - i
  {
    if i == |s| then []
    else (if s[i] == Empty then [i] else []) + AvailableFrom(s, i + 1)
  }

  /** `available_moves`: exactly the empty cells, strictly ascending. */
  function AvailableMoves(s: seq<Cell>): (r: seq<nat>)
    ensures forall j :: 0 <= j < |r| ==> r[j] < |s| && s[r[j]] == Empty
    ensures Ascending(r)
    ensures forall m {:trigger m in r} :: m in r <==> 0 <= m < |s| && s[m] == Empty
  {
    AvailableFrom(s, 0)
  }

  /** No move is available exactly when no cell is empty. */
  lemma NoMovesIffFull(s: seq<Cell>)
    ensures AvailableMoves(s) == [] <==> forall i :: 0 <= i < |s| ==> s[i] != Empty
  {
    var r := AvailableMoves(s);
    if r != [] {
      assert s[r[0]] == Empty;
    } else {
      forall i | 0 <= i < |s|
        ensures s[i] != Empty
      {
        assert i !in r;
      }
    }
  }

  /** Every empty cell has its place in `available_moves`. */
  lemma MoveIndex(s: seq<Cell>, m: nat) returns (i: nat)
    requires m < |s| && s[m] == Empty
    ensures i < |AvailableMoves(s)| && AvailableMoves(s)[i] == m
  {
    assert m in AvailableMoves(s);
    i :| i < |AvailableMoves(s)| && AvailableMoves(s)[i] == m;
  }

  /** `is_draw`: no winner and no empty cell left. */
  function IsDraw(s: seq<Cell>): (r: bool)
    requires |s| == 9
    ensures r <==> Winner(s).None? && AvailableMoves(s) == []
  {
    NoMovesIffFull(s);
    Winner(s).None? && forall i :: 0 <= i < |s| ==> s[i] != Empty
  }

  /** The game is over: somebody has won, or the board is a draw. */
  predicate Terminal(s: seq<Cell>)
    requires |s| == 9
  {
    Winner(s).Some? || IsDraw(s)
  }

  /** A board where the game goes on always has a move left. */
  lemma NonTerminalHasMove(s: seq<Cell>)
    requires |s| == 9 && !Terminal(s)
    ensures AvailableMoves(s) != []
    ensures exists m :: 0 <= m < |s| && s[m] == Empty
  {
    assert !IsDraw(s);
  }

  /** The number of empty cells: the termination measure of the search. */
  function CountEmpty(s: seq<Cell>): nat
  {
    if s == [] then 0 else (if s[0] == Empty then 1 else 0) + CountEmpty(s[1..])
  }

  /** Marking an empty cell leaves one empty cell fewer. */
  lemma {:induction false} CountEmptyPlace(s: seq<Cell>, m: nat, c: Cell)
    requires m < |s| && s[m] == Empty && c != Empty
    ensures CountEmpty(s[m := c]) == CountEmpty(s) - 1
  {
    if m == 0 {
      assert s[m := c][1..] == s[1..];
    } else {
      assert s[m := c][1..] == s[1..][m - 1 := c];
      CountEmptyPlace(s[1..], m - 1, c);
    }
  }

  /** Placing x at m, then putting EMPTY back, restores a board whose cell m was empty. */
  lemma PlaceRevert(s: seq<Cell>, m: nat, x: Cell)
    requires m < |s| && s[m] == Empty
    ensures s[m := x][m := Empty] == s
  {
  }

  /** Placing p at m completes a line for p at once. */
  predicate WinsAt(s: seq<Cell>, p: Cell, m: nat)
    requires |s| == 9 && m < 9
  {
    Winner(s[m := p]) == Some(p)
  }

  /** The moves of ms, kept in order, at which p wins at once. */
  function ImmediateWins(s: seq<Cell>, p: Cell, ms: seq<nat>): (r: seq<nat>)
    requires |s| == 9 && forall j :: 0 <= j < |ms| ==> ms[j] < 9
    ensures forall x {:trigger x in r} :: x in r <==> x in ms && x < 9 && WinsAt(s, p, x)
  {
    if ms == [] then []
    else
      var m := ms[|ms| - 1];
      ImmediateWins(s, p, ms[..|ms| - 1]) + (if WinsAt(s, p, m) then [m] else [])
  }

  /** One more iteration of the loop of `winning_moves`. */
  lemma ImmediateWinsStep(s: seq<Cell>, p: Cell, ms: seq<nat>, i: nat)
    requires |s| == 9 && (forall j :: 0 <= j < |ms| ==> ms[j] < 9) && i < |ms|
    ensures ImmediateWins(s, p, ms[..i + 1])
      == ImmediateWins(s, p, ms[..i]) + (if WinsAt(s, p, ms[i]) then [ms[i]] else [])
  {
    assert ms[..i + 1][..i] == ms[..i];
  }

  /** Filtering an ascending sequence of moves keeps it ascending. */
  lemma {:induction false} ImmediateWinsAscending(s: seq<Cell>, p: Cell, ms: seq<nat>)
    requires |s| == 9 && forall j :: 0 <= j < |ms| ==> ms[j] < 9
    requires Ascending(ms)
    ensures Ascending(ImmediateWins(s, p, ms))
  {
    if ms != [] {
      var front := ms[..|ms| - 1];
      ImmediateWinsAscending(s, p, front);
      var rest := ImmediateWins(s, p, front);
      var last := ms[|ms| - 1];
      assert ImmediateWins(s, p, ms) == rest + (if WinsAt(s, p, last) then [last] else []);
      forall j | 0 <= j < |rest|
        ensures rest[j] < ms[|ms| - 1]
      {
        assert rest[j] in rest;
        var i :| 0 <= i < |front| && front[i] == rest[j];
      }
      var r := ImmediateWins(s, p, ms);
      forall j, k | 0 <= j < k < |r|
        ensures r[j] < r[k]
      {
        if k < |rest| {
          assert r[j] == rest[j] && r[k] == rest[k];
          assert rest[j] < rest[k];
        } else {
          assert r[j] == rest[j] && r[k] == last;
        }
      }
    }
  }

  /** What `winning_moves` returns: ascending, drawn from the empty cells, and
      holding exactly the empty cells at which p completes a line. */
  lemma WinningMovesMeaning(s: seq<Cell>, p: Cell)
    requires |s| == 9
    ensures Ascending(ImmediateWins(s, p, AvailableMoves(s)))
    ensures forall m {:trigger m in ImmediateWins(s, p, AvailableMoves(s))} ::
      m in ImmediateWins(s, p, AvailableMoves(s)) ==> m in AvailableMoves(s)
    ensures forall m :: 0 <= m < 9 ==>
      (m in ImmediateWins(s, p, AvailableMoves(s)) <==> s[m] == Empty && WinsAt(s, p, m))
  {
    ImmediateWinsAscending(s, p, AvailableMoves(s));
  }

  /** `winning_moves`: for each empty cell, place p, test `winner`, revert. */
  method WinningMoves(b: array<Cell>, player: Cell) returns (wins: seq<nat>)
    requires b.Length == 9
    modifies b
    ensures b[..] == old(b[..])
    ensures wins == ImmediateWins(b[..], player, AvailableMoves(b[..]))
  {
    ghost var s := b[..];
    var moves := AvailableMoves(b[..]);
    wins := [];
    var i := 0;
    while i < |moves|
      invariant 0 <= i <= |moves|
      invariant b[..] == s
      invariant wins == ImmediateWins(s, player, moves[..i])
    {
      var m := moves[i];
      b[m] := player;
      assert b[..] == s[m := player];
      var won := Winner(b[..]) == Some(player);
      assert won == WinsAt(s, player, m);
      if won {
        wins := wins + [m];
      }
      b[m] := Empty;
      PlaceRevert(s, m, player);
      assert b[..] == s;
      ImmediateWinsStep(s, player, moves, i);
      i := i + 1;
    }
    assert moves[..i] == moves;
  }
}
