/** The memo key of the search (tictactoe.py, lines 8-10 and 51-52): the
    nine marks written as one string, followed by the mark of the player to
    move. */
module MemoKey {
  import opened Board

  /** The character the source uses for each cell value. */
  function CellChar(c: Cell): char
  {
    match c
    case Human => 'O'
    case AI => 'X'
    case Empty => ' '
  }

  /** Reads a cell value back from its character. */
  function CharCell(ch: char): (r: Option<Cell>)
    ensures r.Some? ==> CellChar(r.value) == ch
  {
    if ch == 'O' then Some(Human)
    else if ch == 'X' then Some(AI)
    else if ch == ' ' then Some(Empty)
    else None
  }

  /** `"".join(b)`: the cells' characters, in board order. */
  function Join(s: seq<Cell>): (r: string)
    ensures |r| == |s|
    ensures forall i :: 0 <= i < |s| ==> CharCell(r[i]) == Some(s[i])
  {
    if s == [] then "" else [CellChar(s[0])] + Join(s[1..])
  }

  /** `board_key`: the joined board followed by the turn's character. */
  function BoardKey(s: seq<Cell>, turn: Cell): string
  {
    Join(s) + [CellChar(turn)]
  }

  /** Reads a joined board back; None on a character that is no cell. */
  function ParseCells(k: string): Option<seq<Cell>>
  {
    if k == [] then Some([])
    else
      match (CharCell(k[0]), ParseCells(k[1..]))
      case (Some(c), Some(rest)) => Some([c] + rest)
      case _ => None
  }

  /** Splits a key into the board and the player to move. */
  function ParseKey(k: string): Option<(seq<Cell>, Cell)>
  {
    if k == [] then None
    else
      match (ParseCells(k[..|k| - 1]), CharCell(k[|k| - 1]))
      case (Some(s), Some(t)) => Some((s, t))
      case _ => None
  }

  /** Reading a joined board back gives the board. */
  lemma {:induction false} ParseJoin(s: seq<Cell>)
    ensures ParseCells(Join(s)) == Some(s)
  {
    if s != [] {
      ParseJoin(s[1..]);
      assert Join(s)[1..] == Join(s[1..]);
      assert [s[0]] + s[1..] == s;
    }
  }

  /** A key determines its board and its turn. */
  lemma KeyRoundTrip(s: seq<Cell>, turn: Cell)
    ensures ParseKey(BoardKey(s, turn)) == Some((s, turn))
  {
    var k := BoardKey(s, turn);
    assert k[..|k| - 1] == Join(s);
    ParseJoin(s);
  }

  /** `board_key` is injective: distinct (board, turn) states never share a
      memo entry. */
  lemma BoardKeyInjective(s1: seq<Cell>, t1: Cell, s2: seq<Cell>, t2: Cell)
    requires BoardKey(s1, t1) == BoardKey(s2, t2)
    ensures s1 == s2 && t1 == t2
  {
    KeyRoundTrip(s1, t1);
    KeyRoundTrip(s2, t2);
  }
}
