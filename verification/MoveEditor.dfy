/** The move editor of the sailing game: a cursor that previews a path on the lake, with undo. */
module MoveEditor {

  const ROWS := 25
  const COLUMNS := 64
  const CELLS := 1600

  const LEFT_ARROW := 75
  const RIGHT_ARROW := 77
  const UP_ARROW := 72
  const DOWN_ARROW := 80
  const KEY_Q := 113
  const KEY_ENTER := 13

  const LAND := 14219
  const WRECKAGE := 4158

  // A recorded move: 1 up, 2 right, 3 down, 4 left, 0 none.
  const UP := 1
  const RIGHT := 2
  const DOWN := 3
  const LEFT := 4

  /** The lake row by row: the cell in row r and column c is at 64 * r + c. */
  type Lake = s: seq<int> | |s| == CELLS witness seq(CELLS, _ => 0)

  type Row = s: seq<int> | |s| == 8 witness [0, 0, 0, 0, 0, 0, 0, 0]

  const NO_MOVES: Row := [0, 0, 0, 0, 0, 0, 0, 0]

  datatype Position = Position(row: int, col: int)

  /** Both cells of a ship there are on the lake. */
  predicate OnBoard(p: Position) { 0 <= p.row < ROWS && 0 <= p.col <= COLUMNS - 2 }

  function Index(p: Position): (k: int)
    ensures OnBoard(p) ==> 0 <= k < CELLS - 1
  {
    64 * p.row + p.col
  }

  /** Whose turn it is, which bounds and colours the preview. */
  datatype Player = Player(number: int, ship: int)
  {
    predicate Valid() { 1 <= number <= 4 }

    function Color(): int
      requires Valid()
    {
      [0, 2, 4, 6, 5][number]
    }

    function ShipCode(): int
      requires Valid()
    {
      Color() * 1000 + 219
    }

    function PathCode(): int
      requires Valid()
    {
      Color() * 1000 + 178
    }

    function MaxMoves(): nat { if ship == 1 then 8 else 6 }
  }

  // ----- findship -----

  function FindFrom(lake: Lake, code: int, k: nat): int
    requires k <= CELLS
    decreases |lake| - k
  {
    if k == CELLS then 0
    else if lake[k] == code then k / 64 * 100 + k % 64
    else FindFrom(lake, code, k + 1)
  }

  /** Row times 100 plus column of the player's first cell, or 0 if there is none. */
  function ShipFound(lake: Lake, code: int): int { FindFrom(lake, code, 0) }

  function Decoded(found: int): Position
    requires found >= 0
  {
    Position(found / 100, found % 100)
  }

  lemma {:induction false} FindFromBounds(lake: Lake, code: int, k: nat)
    requires k <= CELLS
    ensures var f := FindFrom(lake, code, k);
            f >= 0 && 0 <= Decoded(f).row < ROWS && 0 <= Decoded(f).col < COLUMNS
    decreases |lake| - k
  {
    if k < CELLS {
      if lake[k] == code {
        CodeDecodes(k, FindFrom(lake, code, k));
      }
      FindFromBounds(lake, code, k + 1);
    }
  }

  lemma CodeDecodes(k: nat, found: int)
    requires k < CELLS && found == k / 64 * 100 + k % 64
    ensures found >= 0 && Decoded(found) == Position(k / 64, k % 64)
    ensures 0 <= k / 64 < ROWS && Index(Position(k / 64, k % 64)) == k
  {
  }

  function Home(lake: Lake, code: int): Position {
    FindFromBounds(lake, code, 0);
    Decoded(ShipFound(lake, code))
  }

  lemma RowMajor(i: nat, x: nat)
    requires i < ROWS && x < COLUMNS
    ensures 64 * i + x < CELLS && (64 * i + x) / 64 == i && (64 * i + x) % 64 == x
  {
  }

  // ----- the editor on values -----

  datatype Editor = Editor(lake: Lake, row: Row, moves: nat, cursor: Position)

  function Begin(lake: Lake, row: Row, p: Player): Editor
    requires p.Valid()
  {
    Editor(lake, row, 0, Home(lake, p.ShipCode()))
  }

  /** Where a move leads. */
  function Moved(p: Position, move: int): Position {
    if move == UP then p.(row := p.row - 1)
    else if move == DOWN then p.(row := p.row + 1)
    else if move == LEFT then p.(col := p.col - 2)
    else if move == RIGHT then p.(col := p.col + 2)
    else p
  }

  function Opposite(move: int): int {
    if move == UP then DOWN else if move == DOWN then UP else if move == LEFT then RIGHT else LEFT
  }

  predicate Blocked(cell: int) { cell == LAND || cell == WRECKAGE }

  /** On the board, and neither of the two cells there is land or wreckage. */
  predicate Open(lake: Lake, p: Position) {
    OnBoard(p) && !Blocked(lake[Index(p)]) && !Blocked(lake[Index(p) + 1])
  }

  /** The edge test of a direction. */
  predicate RoomFor(p: Position, move: int) {
    if move == UP then p.row != 0
    else if move == DOWN then p.row != 24
    else if move == LEFT then p.col > 1
    else p.col < 61
  }

  function WithPreview(lake: Lake, at: Position, path: int): Lake
    requires OnBoard(at)
  {
    if lake[Index(at)] % 1000 != 219 then lake[Index(at) := path][Index(at) + 1 := path] else lake
  }

  function WithoutPreview(lake: Lake, at: Position, backup: Lake): Lake
    requires OnBoard(at)
  {
    lake[Index(at) := backup[Index(at)]][Index(at) + 1 := backup[Index(at) + 1]]
  }

  function Arrow(key: int): int {
    if key == UP_ARROW then UP else if key == DOWN_ARROW then DOWN
    else if key == LEFT_ARROW then LEFT else if key == RIGHT_ARROW then RIGHT else 0
  }

  lemma MovedOnBoard(at: Position, move: int)
    requires OnBoard(at) && move in {UP, RIGHT, DOWN, LEFT} && RoomFor(at, move)
    ensures OnBoard(Moved(at, move))
    ensures Moved(Moved(at, move), Opposite(move)) == at
  {
  }

  function ArrowPressed(e: Editor, backup: Lake, p: Player, move: int): Editor
    requires p.Valid() && OnBoard(e.cursor) && e.moves <= p.MaxMoves() && move in {UP, RIGHT, DOWN, LEFT}
  {
    if !RoomFor(e.cursor, move) then e
    else
      MovedOnBoard(e.cursor, move);
      var to := Moved(e.cursor, move);
      if e.moves != 0 && e.row[e.moves - 1] == Opposite(move) then
        Editor(WithoutPreview(e.lake, e.cursor, backup), e.row[e.moves - 1 := 0], e.moves - 1, to)
      else if e.moves < p.MaxMoves() && Open(e.lake, to) then
        Editor(WithPreview(e.lake, to, p.PathCode()), e.row[e.moves := move], e.moves + 1, to)
      else e
  }

  function Pressed(e: Editor, backup: Lake, p: Player, key: int): Editor
    requires p.Valid() && OnBoard(e.cursor) && e.moves <= p.MaxMoves()
  {
    if key == KEY_Q then Editor(backup, NO_MOVES, 0, Home(e.lake, p.ShipCode()))
    else if Arrow(key) != 0 then ArrowPressed(e, backup, p, Arrow(key))
    else e
  }

  // ----- what every key keeps -----

  /** The cursor after a sequence of moves. */
  function Along(p: Position, moves: seq<int>): Position {
    if moves == [] then p else Moved(Along(p, moves[..|moves| - 1]), moves[|moves| - 1])
  }

  predicate IsMove(m: int) { m in {UP, RIGHT, DOWN, LEFT} }

  /** A path of recorded moves: no step is taken back, and every step leads to an open place. */
  predicate GoodPath(lake: Lake, start: Position, moves: seq<int>) {
    moves == [] ||
    (var init, last := moves[..|moves| - 1], moves[|moves| - 1];
     && GoodPath(lake, start, init)
     && IsMove(last)
     && (init != [] ==> init[|init| - 1] != Opposite(last))
     && Open(lake, Along(start, moves)))
  }

  /** Each cell is as it was, or previews the path where the lake is open. */
  predicate Previewed(lake: Lake, backup: Lake, path: int) {
    forall k :: 0 <= k < CELLS ==> lake[k] == backup[k] || (lake[k] == path && !Blocked(backup[k]))
  }

  /** k is the first cell with the code, counting from i. */
  predicate FirstFrom(lake: Lake, code: int, i: nat, k: nat) {
    i <= k <= CELLS && (forall j :: i <= j < k ==> lake[j] != code) && (k < CELLS ==> lake[k] == code)
  }

  /** The ship's first cell still shows the ship. */
  predicate ShipKept(lake: Lake, backup: Lake, code: int) {
    forall k :: 0 <= k < CELLS && FirstFrom(backup, code, 0, k) ==> lake[k] == code
  }

  predicate Inv(e: Editor, backup: Lake, p: Player)
    requires p.Valid()
  {
    var start := Home(backup, p.ShipCode());
    && OnBoard(e.cursor)
    && e.moves <= p.MaxMoves()
    && GoodPath(backup, start, e.row[..e.moves])
    && e.cursor == Along(start, e.row[..e.moves])
    && Previewed(e.lake, backup, p.PathCode())
    && ShipKept(e.lake, backup, p.ShipCode())
  }

  /** The ship was found with its right cell on the lake too, or was not found. */
  predicate StartsInside(lake: Lake, p: Player)
    requires p.Valid()
  {
    Home(lake, p.ShipCode()).col <= COLUMNS - 2
  }

  lemma BeginInv(lake: Lake, row: Row, p: Player)
    requires p.Valid() && StartsInside(lake, p)
    ensures Inv(Begin(lake, row, p), lake, p)
  {
    FindFromBounds(lake, p.ShipCode(), 0);
  }

  // ----- the ship stays where findship finds it -----

  lemma {:induction false} FindFromFirst(lake: Lake, code: int, i: nat) returns (k: nat)
    requires i <= CELLS
    ensures FirstFrom(lake, code, i, k)
    ensures FindFrom(lake, code, i) == if k == CELLS then 0 else k / 64 * 100 + k % 64
    decreases |lake| - i
  {
    if i == CELLS || lake[i] == code {
      k := i;
    } else {
      k := FindFromFirst(lake, code, i + 1);
    }
  }

  /** A preview never shows ship code, so keeping the first cell keeps the ship's place. */
  lemma ShipStays(lake: Lake, backup: Lake, p: Player)
    requires p.Valid() && Previewed(lake, backup, p.PathCode()) && ShipKept(lake, backup, p.ShipCode())
    ensures Home(lake, p.ShipCode()) == Home(backup, p.ShipCode())
  {
    var code := p.ShipCode();
    var k := FindFromFirst(backup, code, 0);
    var l := FindFromFirst(lake, code, 0);
    assert forall j :: 0 <= j < k ==> lake[j] == backup[j] || lake[j] == p.PathCode();
    assert k == l;
  }

  lemma ColumnParity(k: nat, at: Position)
    ensures k % 64 % 2 == k % 2
    ensures Index(at) % 2 == at.col % 2
  {
    EvenOffset(k / 64, k % 64);
    EvenOffset(at.row, at.col);
  }

  lemma EvenOffset(q: int, r: int)
    ensures (64 * q + r) % 2 == r % 2
  {
    assert 64 * q + r == 2 * (32 * q) + r;
  }

  /** Moves go two columns at a time, so a path stays in columns of its start's parity. */
  lemma {:induction false} AlongParity(start: Position, moves: seq<int>)
    ensures Along(start, moves).col % 2 == start.col % 2
  {
    if moves != [] {
      AlongParity(start, moves[..|moves| - 1]);
    }
  }

  lemma FirstParity(backup: Lake, p: Player, k: nat, at: Position)
    requires p.Valid() && k < CELLS && FirstFrom(backup, p.ShipCode(), 0, k)
    requires at.col % 2 == Home(backup, p.ShipCode()).col % 2
    ensures k % 2 == Index(at) % 2
  {
    HomeOfFirst(backup, p.ShipCode(), k);
    ColumnParity(k, at);
  }

  lemma {:induction false} FoundFirst(lake: Lake, code: int, i: nat, k: nat)
    requires k < CELLS && FirstFrom(lake, code, i, k)
    ensures FindFrom(lake, code, i) == k / 64 * 100 + k % 64
    decreases k - i
  {
    if i < k {
      FoundFirst(lake, code, i + 1, k);
    }
  }

  lemma HomeOfFirst(lake: Lake, code: int, k: nat)
    requires k < CELLS && FirstFrom(lake, code, 0, k)
    ensures Home(lake, code).col == k % 64
  {
    FoundFirst(lake, code, 0, k);
    CodeDecodes(k, ShipFound(lake, code));
  }

  lemma SetKeepsShip(lake: Lake, backup: Lake, p: Player, at: Position)
    requires p.Valid() && OnBoard(at) && ShipKept(lake, backup, p.ShipCode())
    requires at.col % 2 == Home(backup, p.ShipCode()).col % 2
    ensures ShipKept(WithPreview(lake, at, p.PathCode()), backup, p.ShipCode())
  {
    var code := p.ShipCode();
    ShipCodes(p);
    forall k | 0 <= k < CELLS && FirstFrom(backup, code, 0, k)
      ensures WithPreview(lake, at, p.PathCode())[k] == code
    {
      FirstParity(backup, p, k, at);
      SetSpares(lake, at, p.PathCode(), code, k);
    }
  }

  /** The preview is not drawn over a cell that shows a ship and can be the cursor's left cell. */
  lemma SetSpares(lake: Lake, at: Position, path: int, code: int, k: nat)
    requires OnBoard(at) && k < CELLS && k % 2 == Index(at) % 2 && lake[k] == code && code % 1000 == 219
    ensures WithPreview(lake, at, path)[k] == code
  {
    NotNext(k, Index(at));
  }

  lemma NotNext(k: int, i: int)
    requires k % 2 == i % 2
    ensures k != i + 1
  {
  }

  lemma ShipCodes(p: Player)
    requires p.Valid()
    ensures p.ShipCode() % 1000 == 219 && p.PathCode() % 1000 == 178
    ensures !Blocked(p.ShipCode()) && !Blocked(p.PathCode())
  {
  }

  lemma SetKeepsPreview(lake: Lake, backup: Lake, path: int, at: Position)
    requires OnBoard(at) && Previewed(lake, backup, path) && !Blocked(path) && Open(lake, at)
    ensures Previewed(WithPreview(lake, at, path), backup, path)
    ensures Open(backup, at)
  {
    assert !Blocked(backup[Index(at)]) && !Blocked(backup[Index(at) + 1]);
  }

  lemma UnsetKeeps(lake: Lake, backup: Lake, p: Player, at: Position)
    requires p.Valid() && OnBoard(at) && Previewed(lake, backup, p.PathCode()) && ShipKept(lake, backup, p.ShipCode())
    ensures Previewed(WithoutPreview(lake, at, backup), backup, p.PathCode())
    ensures ShipKept(WithoutPreview(lake, at, backup), backup, p.ShipCode())
  {
  }

  // ----- one key -----

  /** The three ways an arrow with room to move can end. */
  lemma ArrowCases(e: Editor, backup: Lake, p: Player, move: int)
    requires p.Valid() && OnBoard(e.cursor) && e.moves <= p.MaxMoves() && IsMove(move) && RoomFor(e.cursor, move)
    ensures var to := Moved(e.cursor, move);
            && OnBoard(to)
            && ArrowPressed(e, backup, p, move) ==
                 if e.moves != 0 && e.row[e.moves - 1] == Opposite(move) then
                   Editor(WithoutPreview(e.lake, e.cursor, backup), e.row[e.moves - 1 := 0], e.moves - 1, to)
                 else if e.moves < p.MaxMoves() && Open(e.lake, to) then
                   Editor(WithPreview(e.lake, to, p.PathCode()), e.row[e.moves := move], e.moves + 1, to)
                 else e
  {
    MovedOnBoard(e.cursor, move);
  }

  lemma ExtendKeepsInv(e: Editor, backup: Lake, p: Player, move: int)
    requires p.Valid() && StartsInside(backup, p) && Inv(e, backup, p) && IsMove(move) && RoomFor(e.cursor, move)
    requires e.moves < p.MaxMoves() && (e.moves != 0 ==> e.row[e.moves - 1] != Opposite(move))
    requires Open(e.lake, Moved(e.cursor, move))
    ensures var to := Moved(e.cursor, move);
            Inv(Editor(WithPreview(e.lake, to, p.PathCode()), e.row[e.moves := move], e.moves + 1, to), backup, p)
  {
    var to := Moved(e.cursor, move);
    NextParity(Home(backup, p.ShipCode()), e.row[..e.moves], move);
    SetKeepsCells(e.lake, backup, p, to);
    ExtendRow(backup, Home(backup, p.ShipCode()), e.row, e.moves, move);
  }

  lemma ExtendRow(lake: Lake, start: Position, row: Row, n: nat, move: int)
    requires n < 8 && GoodPath(lake, start, row[..n]) && IsMove(move) && (n != 0 ==> row[n - 1] != Opposite(move))
    requires Open(lake, Moved(Along(start, row[..n]), move))
    ensures GoodPath(lake, start, row[n := move][..n + 1])
    ensures Along(start, row[n := move][..n + 1]) == Moved(Along(start, row[..n]), move)
  {
    assert row[n := move][..n + 1] == row[..n] + [move];
    ExtendPath(lake, start, row[..n], move);
  }

  lemma NextParity(start: Position, moves: seq<int>, move: int)
    ensures Moved(Along(start, moves), move).col % 2 == start.col % 2
  {
    AlongParity(start, moves);
  }

  lemma SetKeepsCells(lake: Lake, backup: Lake, p: Player, at: Position)
    requires p.Valid() && Open(lake, at) && at.col % 2 == Home(backup, p.ShipCode()).col % 2
    requires Previewed(lake, backup, p.PathCode()) && ShipKept(lake, backup, p.ShipCode())
    ensures Previewed(WithPreview(lake, at, p.PathCode()), backup, p.PathCode())
    ensures ShipKept(WithPreview(lake, at, p.PathCode()), backup, p.ShipCode())
    ensures Open(backup, at)
  {
    ShipCodes(p);
    SetKeepsShip(lake, backup, p, at);
    SetKeepsPreview(lake, backup, p.PathCode(), at);
  }

  lemma ExtendPath(lake: Lake, start: Position, moves: seq<int>, move: int)
    requires GoodPath(lake, start, moves) && IsMove(move) && (moves != [] ==> moves[|moves| - 1] != Opposite(move))
    requires Open(lake, Moved(Along(start, moves), move))
    ensures GoodPath(lake, start, moves + [move])
    ensures Along(start, moves + [move]) == Moved(Along(start, moves), move)
  {
    assert (moves + [move])[..|moves|] == moves;
  }

  lemma UndoKeepsInv(e: Editor, backup: Lake, p: Player, move: int)
    requires p.Valid() && Inv(e, backup, p) && IsMove(move) && e.moves != 0 && e.row[e.moves - 1] == Opposite(move)
    requires RoomFor(e.cursor, move)
    ensures Inv(Editor(WithoutPreview(e.lake, e.cursor, backup), e.row[e.moves - 1 := 0], e.moves - 1,
                       Moved(e.cursor, move)),
                backup, p)
  {
    UnsetKeeps(e.lake, backup, p, e.cursor);
    var row := e.row[e.moves - 1 := 0];
    var recorded := e.row[..e.moves];
    assert row[..e.moves - 1] == recorded[..|recorded| - 1];
    MovedOnBoard(e.cursor, move);
  }

  lemma PressKeepsInv(e: Editor, backup: Lake, p: Player, key: int)
    requires p.Valid() && StartsInside(backup, p) && Inv(e, backup, p)
    ensures Inv(Pressed(e, backup, p, key), backup, p)
  {
    if key == KEY_Q {
      ShipStays(e.lake, backup, p);
      BeginInv(backup, NO_MOVES, p);
    } else if Arrow(key) != 0 {
      var move := Arrow(key);
      if RoomFor(e.cursor, move) {
        MovedOnBoard(e.cursor, move);
        if e.moves != 0 && e.row[e.moves - 1] == Opposite(move) {
          UndoKeepsInv(e, backup, p, move);
        } else if e.moves < p.MaxMoves() && Open(e.lake, Moved(e.cursor, move)) {
          ExtendKeepsInv(e, backup, p, move);
        }
      }
    }
  }

  // ----- whole editing sessions -----

  /** The editor after the keys before Enter; with no Enter among them, the editor still waiting for a key. */
  function Edited(e: Editor, backup: Lake, p: Player, keys: seq<int>): Editor
    requires p.Valid() && StartsInside(backup, p) && Inv(e, backup, p)
    decreases |keys|
  {
    if keys == [] || keys[0] == KEY_ENTER then e
    else
      PressKeepsInv(e, backup, p, keys[0]);
      Edited(Pressed(e, backup, p, keys[0]), backup, p, keys[1..])
  }

  lemma {:induction false} SessionKeepsInv(e: Editor, backup: Lake, p: Player, keys: seq<int>)
    requires p.Valid() && StartsInside(backup, p) && Inv(e, backup, p)
    ensures Inv(Edited(e, backup, p, keys), backup, p)
    decreases |keys|
  {
    if keys != [] && keys[0] != KEY_ENTER {
      PressKeepsInv(e, backup, p, keys[0]);
      SessionKeepsInv(Pressed(e, backup, p, keys[0]), backup, p, keys[1..]);
    }
  }

  lemma PathParity(start: Position, moves: seq<int>)
    ensures forall j :: 0 <= j <= |moves| ==> Along(start, moves[..j]).col % 2 == start.col % 2
  {
    forall j | 0 <= j <= |moves|
      ensures Along(start, moves[..j]).col % 2 == start.col % 2
    {
      AlongParity(start, moves[..j]);
    }
  }

  lemma {:induction false} GoodSteps(lake: Lake, start: Position, moves: seq<int>)
    requires GoodPath(lake, start, moves)
    ensures forall i :: 0 <= i < |moves| ==> IsMove(moves[i])
    ensures forall i :: 0 < i < |moves| ==> moves[i - 1] != Opposite(moves[i])
  {
    if moves != [] {
      var init := moves[..|moves| - 1];
      GoodSteps(lake, start, init);
      assert forall i :: 0 <= i < |init| ==> moves[i] == init[i];
    }
  }

  lemma {:induction false} GoodPlace(lake: Lake, start: Position, moves: seq<int>, j: nat)
    requires GoodPath(lake, start, moves) && 1 <= j <= |moves|
    ensures Open(lake, Along(start, moves[..j]))
    decreases |moves|
  {
    if j < |moves| {
      var init := moves[..|moves| - 1];
      GoodPlace(lake, start, init, j);
      assert init[..j] == moves[..j];
    } else {
      assert moves[..j] == moves;
    }
  }

  lemma GoodPathIsSafe(lake: Lake, start: Position, moves: seq<int>)
    requires GoodPath(lake, start, moves)
    ensures SafePath(lake, start, moves)
  {
    GoodSteps(lake, start, moves);
    PathParity(start, moves);
    forall j | 1 <= j <= |moves|
      ensures Open(lake, Along(start, moves[..j]))
    {
      GoodPlace(lake, start, moves, j);
    }
  }

  /** What the invariant says about the editor: at most six moves, or eight for ship 1, are declared; none takes the
      previous one back; they lead to the cursor over open places only; and land and wreckage are where they were. */
  predicate SafeEdit(e: Editor, lake: Lake, p: Player)
    requires p.Valid()
  {
    && e.moves <= (if p.ship == 1 then 8 else 6)
    && SafePath(lake, Home(lake, p.ShipCode()), e.row[..e.moves])
    && e.cursor == Along(Home(lake, p.ShipCode()), e.row[..e.moves])
    && SameObstacles(e.lake, lake)
  }

  predicate SafePath(lake: Lake, start: Position, moves: seq<int>) {
    && (forall i :: 0 <= i < |moves| ==> IsMove(moves[i]))
    && (forall i :: 0 < i < |moves| ==> moves[i - 1] != Opposite(moves[i]))
    && (forall j :: 1 <= j <= |moves| ==> Open(lake, Along(start, moves[..j])))
    && (forall j :: 0 <= j <= |moves| ==> Along(start, moves[..j]).col % 2 == start.col % 2)
  }

  predicate SameObstacles(lake: Lake, lake': Lake) {
    forall k :: 0 <= k < CELLS && (Blocked(lake[k]) || Blocked(lake'[k])) ==> lake[k] == lake'[k]
  }

  lemma InvIsSafe(e: Editor, lake: Lake, p: Player)
    requires p.Valid() && Inv(e, lake, p)
    ensures SafeEdit(e, lake, p)
  {
    GoodPathIsSafe(lake, Home(lake, p.ShipCode()), e.row[..e.moves]);
    PreviewSparesObstacles(e.lake, lake, p);
  }

  lemma PreviewSparesObstacles(lake: Lake, backup: Lake, p: Player)
    requires p.Valid() && Previewed(lake, backup, p.PathCode())
    ensures SameObstacles(lake, backup)
  {
    assert !Blocked(p.PathCode());
  }

  /** A whole session: the keys pressed from the beginning on. */
  function Session(lake: Lake, row: Row, p: Player, keys: seq<int>): Editor
    requires p.Valid() && StartsInside(lake, p)
  {
    BeginInv(lake, row, p);
    Edited(Begin(lake, row, p), lake, p, keys)
  }

  /** Whatever keys are pressed and whatever an earlier game left in the record, the edit is safe; a ship in an even
      column stays in even columns. */
  lemma SessionSafe(lake: Lake, row: Row, p: Player, keys: seq<int>)
    requires p.Valid() && StartsInside(lake, p)
    ensures SafeEdit(Session(lake, row, p, keys), lake, p)
  {
    BeginInv(lake, row, p);
    SessionKeepsInv(Begin(lake, row, p), lake, p, keys);
    InvIsSafe(Session(lake, row, p, keys), lake, p);
  }

  /** Q gives back the lake and the cursor the session began with, and an empty record; so it gives back the whole
      editor exactly when the record was empty. */
  lemma QRestores(lake: Lake, row: Row, p: Player, keys: seq<int>)
    requires p.Valid() && StartsInside(lake, p)
    ensures var e := Session(lake, row, p, keys);
            && OnBoard(e.cursor) && e.moves <= p.MaxMoves()
            && Pressed(e, lake, p, KEY_Q) == Begin(lake, NO_MOVES, p)
            && (Pressed(e, lake, p, KEY_Q) == Begin(lake, row, p) <==> row == NO_MOVES)
  {
    BeginInv(lake, row, p);
    SessionKeepsInv(Begin(lake, row, p), lake, p, keys);
    ShipStays(Session(lake, row, p, keys).lake, lake, p);
  }

  // ----- each key, number by number -----

  /** What each arrow key records and where it leads. */
  predicate Steers(key: int, move: int, at: Position, to: Position) {
    || (key == 72 && move == 1 && to == Position(at.row - 1, at.col))
    || (key == 77 && move == 2 && to == Position(at.row, at.col + 2))
    || (key == 80 && move == 3 && to == Position(at.row + 1, at.col))
    || (key == 75 && move == 4 && to == Position(at.row, at.col - 2))
  }

  /** Cell k and the one to its right have changed to this, and no other. */
  predicate PairSet(lake: Lake, lake': Lake, k: nat, left: int, right: int) {
    forall j :: 0 <= j < 1600 ==> lake'[j] == if j == k then left else if j == k + 1 then right else lake[j]
  }

  /** The cursor leaves a place, which looks as before the session. */
  predicate TakenBack(e: Editor, e': Editor, backup: Lake, to: Position)
    requires 0 <= e.cursor.row < 25 && 0 <= e.cursor.col < 63 && 0 < e.moves <= 8
  {
    var k := 64 * e.cursor.row + e.cursor.col;
    && e'.cursor == to && e'.moves == e.moves - 1 && e'.row == e.row[e.moves - 1 := 0]
    && PairSet(e.lake, e'.lake, k, backup[k], backup[k + 1])
  }

  /** The cursor reaches a place, which shows the path unless it shows a ship. */
  predicate Declared(e: Editor, e': Editor, number: int, move: int, to: Position)
    requires 0 <= to.row < 25 && 0 <= to.col < 63 && e.moves < 8 && 1 <= number <= 4
  {
    var k, path := 64 * to.row + to.col, [2178, 4178, 6178, 5178][number - 1];
    && e'.cursor == to && e'.moves == e.moves + 1 && e'.row == e.row[e.moves := move]
    && if e.lake[k] % 1000 == 219 then e'.lake == e.lake else PairSet(e.lake, e'.lake, k, path, path)
  }

  /** Up and down, or right and left. */
  predicate Contrary(last: int, move: int) { 1 <= last <= 4 && (last == move - 2 || last == move + 2) }

  predicate CanEnter(cell: int) { cell != 14219 && cell != 4158 }

  lemma PlayerCodes(p: Player)
    requires 1 <= p.number <= 4
    ensures p.ShipCode() == [2219, 4219, 6219, 5219][p.number - 1]
    ensures p.PathCode() == [2178, 4178, 6178, 5178][p.number - 1]
  {
  }

  /** An arrow key does nothing at the edge; takes the last move back if that was the opposite one; otherwise declares
      a move if one is left and both cells ahead can be entered; and else does nothing. */
  lemma ArrowMeaning(e: Editor, backup: Lake, p: Player, key: int, move: int, to: Position)
    requires 1 <= p.number <= 4 && 0 <= e.cursor.row < 25 && 0 <= e.cursor.col < 63
    requires e.moves <= (if p.ship == 1 then 8 else 6) && Steers(key, move, e.cursor, to)
    ensures var e' := Pressed(e, backup, p, key);
            if !(0 <= to.row < 25 && 0 <= to.col < 63) then e' == e
            else if e.moves != 0 && Contrary(e.row[e.moves - 1], move) then TakenBack(e, e', backup, to)
            else if e.moves < (if p.ship == 1 then 8 else 6)
                    && CanEnter(e.lake[64 * to.row + to.col]) && CanEnter(e.lake[64 * to.row + to.col + 1]) then
              Declared(e, e', p.number, move, to)
            else e' == e
  {
    PlayerCodes(p);
    SteersTo(key, move, e.cursor, to);
    if 0 <= to.row < 25 && 0 <= to.col < 63 {
      ArrowCases(e, backup, p, move);
      TakesBack(e, backup, to);
      Declares(e, p, move, to);
    }
  }

  lemma SteersTo(key: int, move: int, at: Position, to: Position)
    requires Steers(key, move, at, to) && 0 <= at.row < 25 && 0 <= at.col < 63
    ensures Arrow(key) == move && IsMove(move) && key != KEY_Q && Moved(at, move) == to
    ensures RoomFor(at, move) <==> 0 <= to.row < 25 && 0 <= to.col < 63
    ensures forall last :: last == Opposite(move) <==> Contrary(last, move)
  {
  }

  lemma TakesBack(e: Editor, backup: Lake, to: Position)
    requires OnBoard(e.cursor)
    ensures 0 < e.moves <= 8 ==>
              TakenBack(e, Editor(WithoutPreview(e.lake, e.cursor, backup), e.row[e.moves - 1 := 0], e.moves - 1, to),
                        backup, to)
  {
  }

  lemma Declares(e: Editor, p: Player, move: int, to: Position)
    requires OnBoard(to) && 1 <= p.number <= 4
    ensures e.moves < 8 ==>
              Declared(e, Editor(WithPreview(e.lake, to, p.PathCode()), e.row[e.moves := move], e.moves + 1, to),
                       p.number, move, to)
  {
    PlayerCodes(p);
  }

  /** Enter ends the session, Q begins it anew with an empty record, and a key that is no arrow does nothing. */
  lemma KeyByKey(e: Editor, backup: Lake, p: Player, key: int, keys: seq<int>)
    requires p.Valid() && StartsInside(backup, p) && Inv(e, backup, p)
    ensures Inv(Pressed(e, backup, p, key), backup, p)
    ensures Edited(e, backup, p, [key] + keys)
         == if key == 13 then e
            else if key == 113 then Session(backup, [0, 0, 0, 0, 0, 0, 0, 0], p, keys)
            else if key in {72, 75, 77, 80} then Edited(Pressed(e, backup, p, key), backup, p, keys)
            else Edited(e, backup, p, keys)
  {
    assert ([key] + keys)[1..] == keys;
    PressKeepsInv(e, backup, p, key);
    if key == 113 {
      ShipStays(e.lake, backup, p);
    }
  }

  /** A session begins with no move, on the first cell of the player's ship, or in the corner if there is none. */
  lemma BeginsOnShip(lake: Lake, row: Row, p: Player, k: nat)
    requires 1 <= p.number <= 4 && k <= 1600
    requires forall j :: 0 <= j < k ==> lake[j] != [2219, 4219, 6219, 5219][p.number - 1]
    requires k < 1600 ==> lake[k] == [2219, 4219, 6219, 5219][p.number - 1]
    ensures Begin(lake, row, p)
         == Editor(lake, row, 0, if k == 1600 then Position(0, 0) else Position(k / 64, k % 64))
    ensures StartsInside(lake, p) <==> k == 1600 || k % 64 != 63
  {
    var code := p.ShipCode();
    PlayerCodes(p);
    var first := FindFromFirst(lake, code, 0);
    assert first == k;
    if k < 1600 {
      CodeDecodes(k, ShipFound(lake, code));
    }
  }

  // ----- the record against the declared path -----

  /** The record holds the declared moves and nothing else; whoever executes it reads all eight entries. */
  predicate RecordIsPath(e: Editor) { e.moves <= 8 && forall k :: e.moves <= k < 8 ==> e.row[k] == 0 }

  lemma PressKeepsRecord(e: Editor, backup: Lake, p: Player, key: int)
    requires p.Valid() && OnBoard(e.cursor) && e.moves <= p.MaxMoves() && RecordIsPath(e)
    ensures RecordIsPath(Pressed(e, backup, p, key))
  {
  }

  lemma {:induction false} SessionKeepsRecord(e: Editor, backup: Lake, p: Player, keys: seq<int>)
    requires p.Valid() && StartsInside(backup, p) && Inv(e, backup, p) && RecordIsPath(e)
    ensures RecordIsPath(Edited(e, backup, p, keys))
    decreases |keys|
  {
    if keys != [] && keys[0] != KEY_ENTER {
      PressKeepsInv(e, backup, p, keys[0]);
      PressKeepsRecord(e, backup, p, keys[0]);
      SessionKeepsRecord(Pressed(e, backup, p, keys[0]), backup, p, keys[1..]);
    }
  }

  /** Every session leaves a record that is just the declared path if and only if the session began with an empty
      record. */
  lemma RecordIsPathIff(lake: Lake, row: Row, p: Player)
    requires p.Valid() && StartsInside(lake, p)
    ensures (forall keys :: RecordIsPath(Session(lake, row, p, keys))) <==> row == NO_MOVES
  {
    if row == NO_MOVES {
      forall keys: seq<int>
        ensures RecordIsPath(Session(lake, row, p, keys))
      {
        BeginInv(lake, row, p);
        SessionKeepsRecord(Begin(lake, row, p), lake, p, keys);
      }
    } else {
      NotEmptyRecord(Session(lake, row, p, []));
    }
  }

  lemma NotEmptyRecord(e: Editor)
    requires e.moves == 0 && e.row != NO_MOVES
    ensures !RecordIsPath(e)
  {
    if RecordIsPath(e) {
      ZeroRow(e.row);
    }
  }

  lemma ZeroRow(row: Row)
    requires forall k :: 0 <= k < 8 ==> row[k] == 0
    ensures row == NO_MOVES
  {
  }

  /** Q was pressed before Enter. */
  predicate PressedQ(keys: seq<int>) {
    keys != [] && keys[0] != KEY_ENTER && (keys[0] == KEY_Q || PressedQ(keys[1..]))
  }

  function Max(x: nat, y: nat): nat { if x >= y then x else y }

  /** The most moves that are declared at any time in the rest of a session. */
  function Farthest(e: Editor, backup: Lake, p: Player, keys: seq<int>): nat
    requires p.Valid() && StartsInside(backup, p) && Inv(e, backup, p)
    decreases |keys|
  {
    if keys == [] || keys[0] == KEY_ENTER then e.moves
    else
      PressKeepsInv(e, backup, p, keys[0]);
      Max(e.moves, Farthest(Pressed(e, backup, p, keys[0]), backup, p, keys[1..]))
  }

  lemma FarthestAtLeast(e: Editor, backup: Lake, p: Player, keys: seq<int>)
    requires p.Valid() && StartsInside(backup, p) && Inv(e, backup, p)
    ensures Farthest(e, backup, p, keys) >= e.moves
  {
  }

  predicate ZeroFrom(row: Row, n: nat) { forall k :: n <= k < 8 ==> row[k] == 0 }

  /** A key other than Q writes at most the entry at the declared moves, or clears the last one. */
  lemma PressWrites(e: Editor, backup: Lake, p: Player, key: int)
    requires p.Valid() && OnBoard(e.cursor) && e.moves <= p.MaxMoves() && key != KEY_Q
    ensures var e' := Pressed(e, backup, p, key);
            || (e'.moves == e.moves && e'.row == e.row)
            || (e'.moves == e.moves + 1 <= 8 && e'.row == e.row[e.moves := Arrow(key)])
            || (e'.moves + 1 == e.moves && e'.row == e.row[e.moves - 1 := 0])
  {
  }

  lemma ZeroAfterPress(row: Row, row': Row, n: nat, n': nat, move: int, farthest: nat)
    requires n' <= farthest && n <= 8
    requires || (n' == n && row' == row)
             || (n' == n + 1 <= 8 && row' == row[n := move])
             || (n' + 1 == n && row' == row[n - 1 := 0])
    ensures ZeroFrom(row', farthest) <==> ZeroFrom(row, Max(n, farthest))
  {
    forall k | farthest <= k < 8
      ensures k >= n ==> row'[k] == row[k]
      ensures k < n ==> row'[k] == 0
    {
    }
  }

  /** For each session: the record it leaves is just the declared path if and only if Q was pressed, or the record was
      empty at the start from the farthest move on that was ever declared. */
  lemma {:induction false} SessionRecordIff(e: Editor, backup: Lake, p: Player, keys: seq<int>)
    requires p.Valid() && StartsInside(backup, p) && Inv(e, backup, p)
    ensures RecordIsPath(Edited(e, backup, p, keys)) <==>
              PressedQ(keys) || ZeroFrom(e.row, Farthest(e, backup, p, keys))
    decreases |keys|
  {
    if keys != [] && keys[0] != KEY_ENTER {
      var e', rest := Pressed(e, backup, p, keys[0]), keys[1..];
      PressKeepsInv(e, backup, p, keys[0]);
      if keys[0] == KEY_Q {
        SessionKeepsRecord(e', backup, p, rest);
      } else {
        SessionRecordIff(e', backup, p, rest);
        FarthestAtLeast(e', backup, p, rest);
        PressWrites(e, backup, p, keys[0]);
        ZeroAfterPress(e.row, e'.row, e.moves, e'.moves, Arrow(keys[0]), Farthest(e', backup, p, rest));
      }
    }
  }

  /** Witness: entries that a sunk ship's last turn left behind.  Enter at once declares no move, and the record still
      holds five, one of them taking the one before it back. */
  lemma LeftoverMovesStay(lake: Lake, p: Player)
    requires p.Valid() && StartsInside(lake, p)
    ensures var row: Row := [0, 0, 0, UP, DOWN, UP, UP, UP];
            var e := Session(lake, row, p, [KEY_ENTER]);
            e.moves == 0 && e.row == row && e.row[3] == Opposite(e.row[4]) && !RecordIsPath(e)
  {
    var row: Row := [0, 0, 0, UP, DOWN, UP, UP, UP];
    assert row[3] != 0;
  }

  /** The opposite arrow takes a declared move back, and the cursor with it.  The record it leaves as it was exactly
      when the entry was empty; the lake exactly when the place was not already part of the preview, for it always puts
      the original cells back. */
  lemma OppositeUndoes(e: Editor, backup: Lake, p: Player, move: int)
    requires p.Valid() && StartsInside(backup, p) && Inv(e, backup, p) && IsMove(move)
    requires ArrowPressed(e, backup, p, move).moves == e.moves + 1
    ensures var to := Moved(e.cursor, move);
            && OnBoard(to)
            && ArrowPressed(ArrowPressed(e, backup, p, move), backup, p, Opposite(move)) ==
                 e.(lake := WithoutPreview(e.lake, to, backup), row := e.row[e.moves := 0])
            && (e.row[e.moves := 0] == e.row <==> e.row[e.moves] == 0)
            && (WithoutPreview(e.lake, to, backup) == e.lake <==>
                 e.lake[Index(to)] == backup[Index(to)] && e.lake[Index(to) + 1] == backup[Index(to) + 1])
  {
    MovedOnBoard(e.cursor, move);
    var to := Moved(e.cursor, move);
    UnsetAfterSet(e.lake, to, p.PathCode(), backup);
    UnsetNothing(e.lake, to, backup);
    UndoneEntry(e.row, e.moves, move);
  }

  lemma UndoneEntry(row: Row, n: nat, move: int)
    requires n < 8
    ensures row[n := move][n := 0] == row[n := 0]
    ensures row[n := 0] == row <==> row[n] == 0
  {
    assert row[n := 0][n] == 0;
  }

  lemma UnsetAfterSet(lake: Lake, at: Position, path: int, backup: Lake)
    requires OnBoard(at)
    ensures WithoutPreview(WithPreview(lake, at, path), at, backup) == WithoutPreview(lake, at, backup)
  {
  }

  lemma UnsetNothing(lake: Lake, at: Position, backup: Lake)
    requires OnBoard(at)
    ensures WithoutPreview(lake, at, backup) == lake <==>
              lake[Index(at)] == backup[Index(at)] && lake[Index(at) + 1] == backup[Index(at) + 1]
  {
    var after := WithoutPreview(lake, at, backup);
    assert after[Index(at)] == backup[Index(at)] && after[Index(at) + 1] == backup[Index(at) + 1];
  }

  // ----- the editor in place -----

  class MoveEditor {
    const lake: array<int>
    const playerMovements: array<int>
    const backup: array<int>
    const player: Player
    var moves: nat
    var cursor: Position

    ghost predicate Valid()
      reads this
    {
      lake.Length == CELLS && backup.Length == CELLS && playerMovements.Length == 8 && player.Valid()
      && lake != backup && lake != playerMovements && backup != playerMovements
      && OnBoard(cursor) && moves <= player.MaxMoves()
    }

    ghost function State(): Editor
      requires Valid()
      reads this, lake, playerMovements
    {
      Editor(lake[..], playerMovements[..], moves, cursor)
    }

    /** Takes the backup and puts the cursor on the player's ship. */
    constructor (lake: array<int>, playerMovements: array<int>, player: Player)
      requires lake.Length == CELLS && playerMovements.Length == 8 && lake != playerMovements && player.Valid()
      requires StartsInside(lake[..], player)
      ensures Valid() && fresh(backup)
      ensures this.lake == lake && this.playerMovements == playerMovements && this.player == player
      ensures backup[..] == lake[..] && State() == Begin(lake[..], playerMovements[..], player)
    {
      this.lake, this.playerMovements, this.player := lake, playerMovements, player;
      backup := new int[CELLS](i requires 0 <= i < lake.Length reads lake => lake[i]);
      moves, cursor := 0, Position(0, 0);
      new;
      assert backup[..] == lake[..];
      var found := FindShip();
      FindFromBounds(lake[..], player.ShipCode(), 0);
      cursor := Decoded(found);
    }

    /** Scans the lake row by row. */
    method FindShip() returns (found: int)
      requires Valid()
      ensures found == ShipFound(lake[..], player.ShipCode())
    {
      ghost var ship := ShipFound(lake[..], player.ShipCode());
      for i := 0 to ROWS
        invariant ship == FindFrom(lake[..], player.ShipCode(), 64 * i)
      {
        for x := 0 to COLUMNS
          invariant ship == FindFrom(lake[..], player.ShipCode(), 64 * i + x)
        {
          RowMajor(i, x);
          if lake[64 * i + x] == player.ShipCode() {
            return i * 100 + x;
          }
        }
      }
      return 0;
    }

    method SetMovements()
      requires Valid()
      modifies lake
      ensures lake[..] == WithPreview(old(lake[..]), cursor, player.PathCode())
    {
      var at := Index(cursor);
      if lake[at] % 1000 != 219 {
        lake[at] := player.PathCode();
        lake[at + 1] := player.PathCode();
      }
    }

    method UnsetMovements()
      requires Valid()
      modifies lake
      ensures lake[..] == WithoutPreview(old(lake[..]), cursor, backup[..])
    {
      var at := Index(cursor);
      lake[at] := backup[at];
      lake[at + 1] := backup[at + 1];
    }

    /** The four arrow cases, which differ in the edge test, the step and the recorded number. */
    method PressArrow(move: int)
      requires Valid() && IsMove(move)
      modifies lake, playerMovements, this`moves, this`cursor
      ensures Valid()
      ensures State() == ArrowPressed(old(State()), backup[..], player, move)
    {
      if !RoomFor(cursor, move) {
        return;
      }
      ArrowCases(State(), backup[..], player, move);
      var to := Moved(cursor, move);
      if moves != 0 && playerMovements[moves - 1] == Opposite(move) {
        TakeBack(to);
      } else if moves < player.MaxMoves() {
        if !Blocked(lake[Index(to)]) && !Blocked(lake[Index(to) + 1]) {
          Record(to, move);
        }
      }
    }

    method TakeBack(to: Position)
      requires Valid() && OnBoard(to) && moves != 0
      modifies lake, playerMovements, this`moves, this`cursor
      ensures Valid()
      ensures var e := old(State());
              State() == Editor(WithoutPreview(e.lake, e.cursor, backup[..]), e.row[e.moves - 1 := 0], e.moves - 1, to)
    {
      moves := moves - 1;
      playerMovements[moves] := 0;
      UnsetMovements();
      cursor := to;
    }

    method Record(to: Position, move: int)
      requires Valid() && OnBoard(to) && moves < player.MaxMoves()
      modifies lake, playerMovements, this`moves, this`cursor
      ensures Valid()
      ensures var e := old(State());
              State() == Editor(WithPreview(e.lake, to, player.PathCode()), e.row[e.moves := move], e.moves + 1, to)
    {
      cursor := to;
      SetMovements();
      playerMovements[moves] := move;
      moves := moves + 1;
    }

    method PressKey(key: int)
      requires Valid() && OnBoard(Home(lake[..], player.ShipCode()))
      modifies lake, playerMovements, this`moves, this`cursor
      ensures Valid()
      ensures State() == Pressed(old(State()), backup[..], player, key)
    {
      if Arrow(key) != 0 {
        PressArrow(Arrow(key));
      } else if key == KEY_Q {
        var found := FindShip();
        FindFromBounds(lake[..], player.ShipCode(), 0);
        moves := 0;
        cursor := Decoded(found);
        forall k | 0 <= k < CELLS {
          lake[k] := backup[k];
        }
        forall k | 0 <= k < 8 {
          playerMovements[k] := 0;
        }
        assert lake[..] == backup[..] && playerMovements[..] == NO_MOVES;
      }
    }

    /** Reads keys until Enter. */
    method DeclareMove(keys: seq<int>)
      requires Valid() && StartsInside(backup[..], player) && Inv(State(), backup[..], player)
      modifies lake, playerMovements, this`moves, this`cursor
      ensures Valid() && Inv(State(), backup[..], player)
      ensures State() == Edited(old(State()), backup[..], player, keys)
    {
      var k := 0;
      while k < |keys| && keys[k] != KEY_ENTER
        invariant 0 <= k <= |keys|
        invariant Valid() && Inv(State(), backup[..], player)
        invariant Edited(State(), backup[..], player, keys[k..]) == Edited(old(State()), backup[..], player, keys)
        decreases |keys| - k
      {
        NextKey(State(), backup[..], player, keys, k);
        PressKey(keys[k]);
        k := k + 1;
      }
      assert State() == Edited(State(), backup[..], player, keys[k..]);
    }
  }

  /** One turn of the loop. */
  lemma NextKey(e: Editor, backup: Lake, p: Player, keys: seq<int>, k: nat)
    requires p.Valid() && StartsInside(backup, p) && Inv(e, backup, p) && k < |keys| && keys[k] != KEY_ENTER
    ensures OnBoard(Home(e.lake, p.ShipCode()))
    ensures Inv(Pressed(e, backup, p, keys[k]), backup, p)
    ensures Edited(e, backup, p, keys[k..]) == Edited(Pressed(e, backup, p, keys[k]), backup, p, keys[k + 1..])
  {
    ShipStays(e.lake, backup, p);
    FindFromBounds(backup, p.ShipCode(), 0);
    PressKeepsInv(e, backup, p, keys[k]);
    assert keys[k..][1..] == keys[k + 1..];
  }
}
