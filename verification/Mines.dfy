/**
 The minesweeper field of apps/mines/mines.cpp, for a board of any size.

 `Flood` describes a click without mentioning the recursion: the blocks that open are the
 ends of trails of closed blocks whose inner blocks are blank.  The class `Field` keeps the
 blocks as mutable objects, and its recursive `Open` is proved to open exactly those.
 */
module Flood {

  datatype Cell = Cell(x: int, y: int)

  datatype Board = Board(width: nat, height: nat, mines: set<Cell>)

  predicate OnBoard(b: Board, c: Cell) {
    0 <= c.x < b.width && 0 <= c.y < b.height
  }

  predicate Adjacent(c: Cell, d: Cell) {
    c != d && -1 <= c.x - d.x <= 1 && -1 <= c.y - d.y <= 1
  }

  /** A block the flood passes through: no mine on it and none around it. */
  ghost predicate Blank(b: Board, c: Cell) {
    c !in b.mines && forall d :: Adjacent(c, d) ==> d !in b.mines
  }

  ghost predicate Hop(b: Board, p: seq<Cell>, i: nat)
    requires i + 1 < |p|
  {
    Blank(b, p[i]) && Adjacent(p[i], p[i + 1])
  }

  /** A walk over closed blocks that leaves every block but the last through a blank one. */
  ghost predicate Trail(b: Board, shown: set<Cell>, p: seq<Cell>) {
    && (forall i :: 0 <= i < |p| ==> OnBoard(b, p[i]) && p[i] !in shown)
    && (forall i :: 0 <= i < |p| - 1 ==> Hop(b, p, i))
  }

  ghost predicate Joins(p: seq<Cell>, s: Cell, c: Cell) {
    |p| > 0 && p[0] == s && p[|p| - 1] == c
  }

  ghost predicate Reaches(b: Board, shown: set<Cell>, s: Cell, c: Cell) {
    exists p :: Joins(p, s, c) && Trail(b, shown, p)
  }

  /** Every newly open blank block, except `pending`, has all its neighbours open. */
  ghost predicate Saturated(b: Board, before: set<Cell>, after: set<Cell>, pending: set<Cell>) {
    forall c, d :: c in after && c !in before && c !in pending && Blank(b, c) && Adjacent(c, d) && OnBoard(b, d)
                   ==> d in after
  }

  ghost predicate Sound(b: Board, before: set<Cell>, s: Cell, after: set<Cell>) {
    before <= after && forall c :: c in after && c !in before ==> Reaches(b, before, s, c)
  }

  /** What one call of Open does to the set of open blocks. */
  ghost predicate Flooded(b: Board, before: set<Cell>, s: Cell, after: set<Cell>) {
    s in after && Sound(b, before, s, after) && Saturated(b, before, after, {})
  }

  /** A trail from a neighbour of a blank closed block extends to a trail from that block. */
  lemma ExtendTrail(b: Board, before: set<Cell>, mid: set<Cell>, s: Cell, n: Cell, c: Cell)
    requires before <= mid && s !in before && OnBoard(b, s) && Blank(b, s) && Adjacent(s, n)
    requires Reaches(b, mid, n, c)
    ensures Reaches(b, before, s, c)
  {
    var p :| Joins(p, n, c) && Trail(b, mid, p);
    var q := [s] + p;
    assert Joins(q, s, c);
    forall i | 0 <= i < |q| - 1
      ensures Hop(b, q, i)
    {
      if i > 0 {
        assert Hop(b, p, i - 1);
      }
    }
    assert Trail(b, before, q);
  }

  /** One recursive call on a neighbour keeps the flood of a blank block sound and saturated. */
  lemma FloodNeighbour(b: Board, before: set<Cell>, s: Cell, mid: set<Cell>, n: Cell, after: set<Cell>)
    requires s !in before && OnBoard(b, s) && Blank(b, s) && Adjacent(s, n)
    requires s in mid && Sound(b, before, s, mid) && Saturated(b, before, mid, {s})
    requires if OnBoard(b, n) then Flooded(b, mid, n, after) else after == mid
    ensures s in after && Sound(b, before, s, after) && Saturated(b, before, after, {s})
    ensures mid <= after && (OnBoard(b, n) ==> n in after)
  {
    forall c | c in after && c !in before
      ensures Reaches(b, before, s, c)
    {
      if c !in mid {
        ExtendTrail(b, before, mid, s, n, c);
      }
    }
  }

  /** A saturated flood leaves no reachable block closed. */
  lemma FloodComplete(b: Board, before: set<Cell>, s: Cell, after: set<Cell>, p: seq<Cell>, k: nat)
    requires Flooded(b, before, s, after)
    requires k < |p| && p[0] == s && Trail(b, before, p)
    ensures p[k] in after
  {
    if k > 0 {
      FloodComplete(b, before, s, after, p, k - 1);
      assert Hop(b, p, k - 1);
    }
  }

  /** Flooded pins the result down: exactly the reachable blocks are added. */
  lemma FloodExact(b: Board, before: set<Cell>, s: Cell, after: set<Cell>)
    requires Flooded(b, before, s, after)
    ensures forall c :: c in after <==> c in before || Reaches(b, before, s, c)
  {
    forall c | Reaches(b, before, s, c)
      ensures c in after
    {
      var p :| Joins(p, s, c) && Trail(b, before, p);
      FloodComplete(b, before, s, after, p, |p| - 1);
    }
  }

  /** A flood that starts off the mines never touches one. */
  lemma FloodAvoidsMines(b: Board, before: set<Cell>, s: Cell, after: set<Cell>)
    requires Flooded(b, before, s, after) && s !in b.mines
    ensures after * b.mines == before * b.mines
  {
    forall c | c in after && c !in before
      ensures c !in b.mines
    {
      var p :| Joins(p, s, c) && Trail(b, before, p);
      if |p| > 1 {
        assert Hop(b, p, |p| - 2);
      }
    }
  }

  ghost function MinesAround(mines: set<Cell>, c: Cell): set<Cell> {
    set d | d in mines && Adjacent(c, d)
  }

  function Hit(mines: set<Cell>, x: int, y: int): nat {
    if Cell(x, y) in mines then 1 else 0
  }

  /** The mines among three consecutive cells of a row. */
  ghost function RowMines(mines: set<Cell>, x: int, y: int): set<Cell> {
    {Cell(x - 1, y), Cell(x, y), Cell(x + 1, y)} * mines
  }

  lemma RowCount(mines: set<Cell>, x: int, y: int)
    ensures InRow(RowMines(mines, x, y), y)
    ensures |RowMines(mines, x, y)| == Hit(mines, x - 1, y) + Hit(mines, x, y) + Hit(mines, x + 1, y)
  {
    BesideCount(mines, x, y);
    var m := if Cell(x, y) in mines then {Cell(x, y)} else {};
    assert RowMines(mines, x, y) == BesideMines(mines, x, y) + m;
  }

  ghost function BesideMines(mines: set<Cell>, x: int, y: int): set<Cell> {
    {Cell(x - 1, y), Cell(x + 1, y)} * mines
  }

  lemma BesideCount(mines: set<Cell>, x: int, y: int)
    ensures InRow(BesideMines(mines, x, y), y)
    ensures |BesideMines(mines, x, y)| == Hit(mines, x - 1, y) + Hit(mines, x + 1, y)
  {
    var l := if Cell(x - 1, y) in mines then {Cell(x - 1, y)} else {};
    var r := if Cell(x + 1, y) in mines then {Cell(x + 1, y)} else {};
    assert BesideMines(mines, x, y) == l + r;
  }

  ghost predicate InRow(cells: set<Cell>, y: int) {
    forall d :: d in cells ==> d.y == y
  }

  lemma RowsAdd(a: set<Cell>, b: set<Cell>, c: set<Cell>, y: int)
    requires InRow(a, y + 1) && InRow(b, y) && InRow(c, y - 1)
    ensures |a + b + c| == |a| + |b| + |c|
  {
    assert a !! b && (a + b) !! c;
  }

  /** The eight positions are the neighbourhood. */
  lemma RingMember(x: int, y: int, d: Cell)
    ensures Adjacent(Cell(x, y), d)
            <==> || d in {Cell(x - 1, y + 1), Cell(x, y + 1), Cell(x + 1, y + 1)}
                 || d in {Cell(x - 1, y), Cell(x + 1, y)}
                 || d in {Cell(x - 1, y - 1), Cell(x, y - 1), Cell(x + 1, y - 1)}
  {
    assert d == Cell(d.x, d.y);
  }

  lemma RingSplit(mines: set<Cell>, x: int, y: int)
    ensures MinesAround(mines, Cell(x, y))
         == RowMines(mines, x, y + 1) + BesideMines(mines, x, y) + RowMines(mines, x, y - 1)
  {
    forall d
      ensures d in MinesAround(mines, Cell(x, y))
        <==> d in RowMines(mines, x, y + 1) + BesideMines(mines, x, y) + RowMines(mines, x, y - 1)
    {
      RingMember(x, y, d);
    }
  }

  /** Eight separate tests count the mines of the neighbourhood. */
  lemma RingCount(mines: set<Cell>, x: int, y: int)
    ensures |MinesAround(mines, Cell(x, y))|
         == Hit(mines, x - 1, y + 1) + Hit(mines, x, y + 1) + Hit(mines, x + 1, y + 1)
            + Hit(mines, x - 1, y) + Hit(mines, x + 1, y)
            + Hit(mines, x - 1, y - 1) + Hit(mines, x, y - 1) + Hit(mines, x + 1, y - 1)
  {
    RingSplit(mines, x, y);
    RowCount(mines, x, y + 1);
    BesideCount(mines, x, y);
    RowCount(mines, x, y - 1);
    RowsAdd(RowMines(mines, x, y + 1), BesideMines(mines, x, y), RowMines(mines, x, y - 1), y);
  }

  lemma NoneAround(b: Board, c: Cell)
    requires c !in b.mines
    ensures |MinesAround(b.mines, c)| == 0 <==> Blank(b, c)
  {
    if |MinesAround(b.mines, c)| == 0 {
      forall d | Adjacent(c, d)
        ensures d !in b.mines
      {
        assert d !in MinesAround(b.mines, c);
      }
    }
  }

  /** Between clicks, every open blank block has all its neighbours open. */
  ghost predicate Settled(b: Board, shown: set<Cell>) {
    Saturated(b, {}, shown, {})
  }

  /** A mine is never blank, so opening one opens nothing else. */
  lemma FloodFromMine(b: Board, before: set<Cell>, s: Cell, after: set<Cell>)
    requires Flooded(b, before, s, after) && s in b.mines
    ensures after == before + {s}
  {
    forall c | c in after && c !in before
      ensures c == s
    {
      var p :| Joins(p, s, c) && Trail(b, before, p);
      assert |p| > 1 ==> Hop(b, p, 0);
    }
  }

  lemma SubsetSize(small: set<Cell>, big: set<Cell>)
    requires small <= big
    ensures |big| == |small| + |big - small|
  {
    assert big == small + (big - small);
  }

  /** The win test on a board where no mine is open. */
  lemma OpenBlockTest(all: set<Cell>, mines: set<Cell>, shown: set<Cell>)
    requires mines <= all && shown <= all && shown !! mines
    ensures |shown| == |all| - |mines| <==> shown == all - mines
  {
    SubsetSize(mines, all);
    SubsetSize(shown, all - mines);
  }

  /**
   The win test counts open blocks without looking at mines.  After a click on a safe block it
   says "won" exactly when every safe block is open; after a click on a mine it also says "won",
   exactly when one safe block is still closed.
   */
  lemma WinTest(b: Board, all: set<Cell>, before: set<Cell>, s: Cell, after: set<Cell>)
    requires b.mines <= all && before <= all && after <= all && before !! b.mines
    requires Flooded(b, before, s, after) && s !in before
    ensures s !in b.mines ==> (|after| == |all| - |b.mines| <==> after == all - b.mines)
    ensures s in b.mines ==> (|after| == |all| - |b.mines| <==> |(all - b.mines) - before| == 1)
  {
    SubsetSize(b.mines, all);
    if s in b.mines {
      FloodFromMine(b, before, s, after);
      SubsetSize(before, all - b.mines);
    } else {
      FloodAvoidsMines(b, before, s, after);
      assert after <= all - b.mines by {
        forall c | c in after
          ensures c !in b.mines
        {
          assert c in b.mines ==> c in after * b.mines;
        }
      }
      SubsetSize(after, all - b.mines);
    }
  }

  lemma {:induction false} RowSize(row: set<Cell>, w: nat, y: int)
    requires forall c :: c in row <==> 0 <= c.x < w && c.y == y
    ensures |row| == w
  {
    if w == 0 {
      assert row == {};
    } else {
      var last := Cell(w - 1, y);
      RowSize(row - {last}, w - 1, y);
      assert last in row;
    }
  }

  /** The field has width times height blocks. */
  lemma {:induction false} GridSize(cells: set<Cell>, w: nat, h: nat)
    requires forall c :: c in cells <==> 0 <= c.x < w && 0 <= c.y < h
    ensures |cells| == h * w
  {
    if h == 0 {
      assert cells == {};
    } else {
      var row := set c | c in cells && c.y == h - 1;
      RowSize(row, w, h - 1);
      GridSize(cells - row, w, h - 1);
      SubsetSize(row, cells);
      assert (h - 1) * w + w == h * w;
    }
  }

  predicate Eligible(src: Cell, d: Cell) {
    d != src && !Adjacent(src, d)
  }

  /** The distinct drawn positions that may hold a mine. */
  function Choices(src: Cell, draws: seq<Cell>): set<Cell> {
    if draws == [] then {}
    else Choices(src, draws[1..]) + if Eligible(src, draws[0]) then {draws[0]} else {}
  }

  lemma {:induction false} ChoicesAreDrawn(src: Cell, draws: seq<Cell>, d: Cell)
    ensures d in Choices(src, draws) <==> d in draws && Eligible(src, d)
    ensures Eligible(src, d) <==> d.x < src.x - 1 || src.x + 1 < d.x || d.y < src.y - 1 || src.y + 1 < d.y
  {
    if draws != [] {
      ChoicesAreDrawn(src, draws[1..], d);
    }
  }

  /** The mines after drawing positions until `n` new mines lie or the draws run out. */
  function Placed(mines: set<Cell>, src: Cell, draws: seq<Cell>, n: nat): set<Cell>
    decreases |draws|
  {
    if n == 0 || draws == [] then mines
    else if Eligible(src, draws[0]) && draws[0] !in mines then Placed(mines + {draws[0]}, src, draws[1..], n - 1)
    else Placed(mines, src, draws[1..], n)
  }

  /** The mines placed are all the choices among the first draws. */
  lemma {:induction false} PlacedFirst(mines: set<Cell>, src: Cell, draws: seq<Cell>, n: nat) returns (k: nat)
    ensures k <= |draws| && Placed(mines, src, draws, n) == mines + Choices(src, draws[..k])
    decreases |draws|
  {
    k := 0;
    if n > 0 && draws != [] {
      var (d, rest) := (draws[0], draws[1..]);
      if Eligible(src, d) && d !in mines {
        k := PlacedFirst(mines + {d}, src, rest, n - 1);
      } else {
        k := PlacedFirst(mines, src, rest, n);
      }
      assert draws[..k + 1][1..] == rest[..k];
      k := k + 1;
    }
  }

  /** How many new mines the draws can supply. */
  function Available(mines: set<Cell>, src: Cell, draws: seq<Cell>): nat
    decreases |draws|
  {
    if draws == [] then 0
    else if Eligible(src, draws[0]) && draws[0] !in mines then 1 + Available(mines + {draws[0]}, src, draws[1..])
    else Available(mines, src, draws[1..])
  }

  lemma OneFewer(all: set<Cell>, rest: set<Cell>, mines: set<Cell>, d: Cell)
    requires all == rest + {d} && d !in mines
    ensures |all - mines| == 1 + |rest - (mines + {d})|
  {
    assert all - mines == (rest - (mines + {d})) + {d};
  }

  lemma SameWithout(all: set<Cell>, rest: set<Cell>, mines: set<Cell>, d: Cell)
    requires all == rest || (all == rest + {d} && d in mines)
    ensures |all - mines| == |rest - mines|
  {
    assert all - mines == rest - mines;
  }

  /** The supply is the number of distinct eligible positions drawn that hold no mine yet. */
  lemma {:induction false} AvailableIsDistinct(mines: set<Cell>, src: Cell, draws: seq<Cell>)
    ensures Available(mines, src, draws) == |Choices(src, draws) - mines|
    decreases |draws|
  {
    if draws == [] {
      assert Choices(src, draws) - mines == {};
    } else {
      var d := draws[0];
      if Eligible(src, d) && d !in mines {
        AvailableIsDistinct(mines + {d}, src, draws[1..]);
        OneFewer(Choices(src, draws), Choices(src, draws[1..]), mines, d);
      } else {
        AvailableIsDistinct(mines, src, draws[1..]);
        SameWithout(Choices(src, draws), Choices(src, draws[1..]), mines, d);
      }
    }
  }

  /** Only eligible positions get a mine. */
  lemma {:induction false} PlacedEligible(mines: set<Cell>, src: Cell, draws: seq<Cell>, n: nat, c: Cell)
    requires c in Placed(mines, src, draws, n)
    ensures c in mines || (c in draws && Eligible(src, c))
    decreases |draws|
  {
    if draws != [] && n > 0 {
      if Eligible(src, draws[0]) && draws[0] !in mines {
        PlacedEligible(mines + {draws[0]}, src, draws[1..], n - 1, c);
      } else {
        PlacedEligible(mines, src, draws[1..], n, c);
      }
    }
  }

  /** As many mines are laid as were asked for, or as there are choices. */
  lemma {:induction false} PlacedExactly(mines: set<Cell>, src: Cell, draws: seq<Cell>, n: nat)
    ensures |Placed(mines, src, draws, n)|
         == |mines| + if n <= Available(mines, src, draws) then n else Available(mines, src, draws)
    decreases |draws|
  {
    if draws != [] && n > 0 {
      if Eligible(src, draws[0]) && draws[0] !in mines {
        PlacedExactly(mines + {draws[0]}, src, draws[1..], n - 1);
        assert |mines + {draws[0]}| == |mines| + 1;
      } else {
        PlacedExactly(mines, src, draws[1..], n);
      }
    }
  }

  /** The clicked block is blank, and the laying finishes exactly when the draws offer enough choices. */
  lemma FirstClickIsBlank(b: Board, src: Cell, draws: seq<Cell>, n: nat)
    requires b.mines == Placed({}, src, draws, n)
    ensures Blank(b, src)
    ensures |b.mines| == n <==> |Choices(src, draws)| >= n
  {
    forall d | d in b.mines
      ensures Eligible(src, d)
    {
      PlacedEligible({}, src, draws, n, d);
    }
    PlacedExactly({}, src, draws, n);
    AvailableIsDistinct({}, src, draws);
    assert Choices(src, draws) - {} == Choices(src, draws);
  }

  lemma PlacedStep(mines: set<Cell>, src: Cell, draws: seq<Cell>, i: nat, n: nat)
    requires i < |draws| && n > 0
    ensures Placed(mines, src, draws[i..], n)
         == if Eligible(src, draws[i]) && draws[i] !in mines
            then Placed(mines + {draws[i]}, src, draws[i + 1..], n - 1)
            else Placed(mines, src, draws[i + 1..], n)
  {
    assert draws[i..][0] == draws[i] && draws[i..][1..] == draws[i + 1..];
  }

  /** The set-level effect of one later click on a closed block. */
  lemma ClickOutcome(b: Board, before: set<Cell>, s: Cell, after: set<Cell>)
    requires before !! b.mines && Settled(b, before) && Flooded(b, before, s, after) && s !in before
    ensures forall c :: c in after <==> c in before || Reaches(b, before, s, c)
    ensures Settled(b, after) && (s !in b.mines ==> after !! b.mines)
  {
    FloodExact(b, before, s, after);
    if s !in b.mines {
      FloodAvoidsMines(b, before, s, after);
      assert after * b.mines == {};
    }
  }
}

module Mines {
  import opened Flood

  datatype GameStatus = Busy | Won | Lose

  class Block {
    var open: bool
    var mine: bool
    const fx: int
    const fy: int

    constructor (x: int, y: int)
      ensures fx == x && fy == y && !open && !mine
    {
      fx, fy, open, mine := x, y, false, false;
    }

    function Place(): Cell {
      Cell(fx, fy)
    }
  }

  class Field {
    const width: nat
    const height: nat
    const numOfMines: nat
    const blocks: map<Cell, Block>
    var gameStatus: GameStatus
    var firstClick: bool

    /** The block list holds one block per cell of the board. */
    ghost predicate Valid() {
      && (forall c :: c in blocks <==> 0 <= c.x < width && 0 <= c.y < height)
      && (forall c :: c in blocks ==> blocks[c].Place() == c)
    }

    ghost predicate Has(block: Block) {
      block.Place() in blocks && blocks[block.Place()] == block
    }

    /** The inner placement loop of main. */
    static method PlaceRow(done: map<Cell, Block>, w: nat, y: nat) returns (list: map<Cell, Block>)
      requires forall c :: c in done ==> c.y < y
      ensures forall c :: c in list <==> c in done || (0 <= c.x < w && c.y == y)
      ensures forall c :: c in done ==> list[c] == done[c]
      ensures forall c :: c in list && c !in done
                          ==> list[c].Place() == c && fresh(list[c]) && !list[c].open && !list[c].mine
    {
      list := done;
      var x := 0;
      while x < w
        invariant 0 <= x <= w
        invariant forall c :: c in list <==> c in done || (0 <= c.x < x && c.y == y)
        invariant forall c :: c in done ==> list[c] == done[c]
        invariant forall c :: c in list && c !in done
                              ==> list[c].Place() == c && fresh(list[c]) && !list[c].open && !list[c].mine
      {
        var b := new Block(x, y);
        list := list[Cell(x, y) := b];
        x := x + 1;
      }
    }

    /** A fresh game: the outer placement loop of main. */
    constructor (w: nat, h: nat, mines: nat)
      ensures Valid() && width == w && height == h && numOfMines == mines
      ensures firstClick && gameStatus == Busy
      ensures forall c :: c in blocks ==> fresh(blocks[c])
      ensures Shown() == {} && MineCells() == {}
    {
      var list: map<Cell, Block> := map[];
      var y := 0;
      while y < h
        invariant 0 <= y <= h
        invariant forall c :: c in list <==> 0 <= c.x < w && 0 <= c.y < y
        invariant forall c :: c in list ==> list[c].Place() == c && fresh(list[c]) && !list[c].open && !list[c].mine
      {
        list := PlaceRow(list, w, y);
        y := y + 1;
      }
      width, height, numOfMines, blocks := w, h, mines, list;
      firstClick, gameStatus := true, Busy;
    }

    ghost function Shown(): (r: set<Cell>)
      reads blocks.Values`open
      ensures r <= blocks.Keys
    {
      set c | c in blocks && blocks[c].open
    }

    ghost function MineCells(): (r: set<Cell>)
      reads blocks.Values`mine
      ensures r <= blocks.Keys
    {
      set c | c in blocks && blocks[c].mine
    }

    ghost function Layout(): Board
      reads blocks.Values`mine
    {
      Board(width, height, MineCells())
    }

    function GetBlock(x: int, y: int): (r: Block?)
      requires Valid()
      ensures r == null <==> !(0 <= x < width && 0 <= y < height)
      ensures r != null ==> Has(r) && r.Place() == Cell(x, y)
    {
      if x >= 0 && x < width && y >= 0 && y < height then blocks[Cell(x, y)] else null
    }

    predicate IsMine(x: int, y: int)
      requires Valid()
      reads blocks.Values`mine
      ensures IsMine(x, y) <==> Cell(x, y) in MineCells()
    {
      if x >= 0 && x < width && y >= 0 && y < height then blocks[Cell(x, y)].mine else false
    }

    method CountMinesAround(src: Block) returns (result: int)
      requires Valid() && Has(src)
      ensures result == |MinesAround(MineCells(), src.Place())|
    {
      var x, y := src.fx, src.fy;
      result := 0;
      if IsMine(x - 1, y + 1) { result := result + 1; }
      if IsMine(x, y + 1) { result := result + 1; }
      if IsMine(x + 1, y + 1) { result := result + 1; }
      if IsMine(x - 1, y) { result := result + 1; }
      if IsMine(x + 1, y) { result := result + 1; }
      if IsMine(x - 1, y - 1) { result := result + 1; }
      if IsMine(x, y - 1) { result := result + 1; }
      if IsMine(x + 1, y - 1) { result := result + 1; }
      RingCount(MineCells(), x, y);
    }

    predicate IsBlockAround(middle: Block, check: Block)
      requires Valid() && Has(middle) && Has(check)
      ensures IsBlockAround(middle, check) <==> Adjacent(middle.Place(), check.Place())
    {
      var x, y := middle.fx, middle.fy;
      || GetBlock(x - 1, y + 1) == check || GetBlock(x, y + 1) == check || GetBlock(x + 1, y + 1) == check
      || GetBlock(x - 1, y) == check || GetBlock(x + 1, y) == check
      || GetBlock(x - 1, y - 1) == check || GetBlock(x, y - 1) == check || GetBlock(x + 1, y - 1) == check
    }

    ghost predicate Closed(block: Block?)
      reads blocks.Values`open
      requires block != null ==> Has(block)
    {
      block != null && !block.open
    }

    /**
     Opens `block` and, through blank blocks, everything reachable from it.  `left` bounds the
     blocks still closed, which is why the recursion ends.
     */
    method Open(block: Block?, ghost left: set<Cell>)
      requires Valid() && (block != null ==> Has(block))
      requires blocks.Keys - Shown() <= left
      modifies blocks.Values`open, this`gameStatus
      ensures !old(Closed(block)) ==> Shown() == old(Shown()) && gameStatus == old(gameStatus)
      ensures old(Closed(block)) ==> Flooded(Layout(), old(Shown()), block.Place(), Shown())
      ensures old(Closed(block)) ==> gameStatus == if block.mine then Lose else old(gameStatus)
      decreases left, 0
    {
      if block != null && block.open == false {
        ghost var board, before, s := Layout(), Shown(), block.Place();
        assert s !in before && s in blocks.Keys;
        block.open := true;
        assert Shown() == before + {s};
        assert Reaches(board, before, s, s) by {
          assert Joins([s], s, s) && Trail(board, before, [s]);
        }
        if block.mine {
          gameStatus := Lose;
        } else {
          var minesAround := CountMinesAround(block);
          NoneAround(board, s);
          if minesAround == 0 {
            OpenRing(block, before, left - {s});
          }
        }
      }
    }

    /** The eight recursive calls of Open around the blank block `centre`. */
    method OpenRing(centre: Block, ghost before: set<Cell>, ghost left: set<Cell>)
      requires Valid() && Has(centre) && Blank(Layout(), centre.Place())
      requires centre.Place() !in before && Partly(before, centre)
      requires blocks.Keys - Shown() <= left
      modifies blocks.Values`open, this`gameStatus
      ensures Flooded(Layout(), before, centre.Place(), Shown())
      ensures gameStatus == old(gameStatus)
      decreases left, 3
    {
      var x, y := centre.fx, centre.fy;
      OpenRow(centre, before, left, y + 1);
      OpenAround(centre, before, left, x - 1, y);
      OpenAround(centre, before, left, x + 1, y);
      OpenRow(centre, before, left, y - 1);
      forall d | Adjacent(centre.Place(), d) && OnBoard(Layout(), d)
        ensures d in Shown()
      {
        RingMember(x, y, d);
      }
    }

    /** The three recursive calls of Open for the row above or below `centre`. */
    method OpenRow(centre: Block, ghost before: set<Cell>, ghost left: set<Cell>, y: int)
      requires Valid() && Has(centre) && Blank(Layout(), centre.Place())
      requires (y == centre.fy + 1 || y == centre.fy - 1) && centre.Place() !in before
      requires Partly(before, centre) && blocks.Keys - Shown() <= left
      modifies blocks.Values`open, this`gameStatus
      ensures Partly(before, centre) && old(Shown()) <= Shown()
      ensures forall x :: centre.fx - 1 <= x <= centre.fx + 1 && OnBoard(Layout(), Cell(x, y)) ==> Cell(x, y) in Shown()
      ensures gameStatus == old(gameStatus)
      decreases left, 2
    {
      OpenAround(centre, before, left, centre.fx - 1, y);
      OpenAround(centre, before, left, centre.fx, y);
      OpenAround(centre, before, left, centre.fx + 1, y);
    }

    /** One of the eight recursive calls of Open, around the blank block `centre`. */
    method OpenAround(centre: Block, ghost before: set<Cell>, ghost left: set<Cell>, x: int, y: int)
      requires Valid() && Has(centre) && Blank(Layout(), centre.Place())
      requires Adjacent(centre.Place(), Cell(x, y)) && centre.Place() !in before
      requires Partly(before, centre) && blocks.Keys - Shown() <= left
      modifies blocks.Values`open, this`gameStatus
      ensures Partly(before, centre) && old(Shown()) <= Shown()
      ensures OnBoard(Layout(), Cell(x, y)) ==> Cell(x, y) in Shown()
      ensures gameStatus == old(gameStatus)
      decreases left, 1
    {
      var next := GetBlock(x, y);
      ghost var board, mid := Layout(), Shown();
      Open(next, left);
      if next != null {
        assert !next.mine by { assert Cell(x, y) !in board.mines; }
        if Cell(x, y) in mid {
          assert next.open;
        } else {
          FloodNeighbour(board, before, centre.Place(), mid, Cell(x, y), Shown());
        }
      }
    }

    ghost predicate Partly(before: set<Cell>, centre: Block)
      reads blocks.Values`open, blocks.Values`mine
    {
      && centre.Place() in Shown()
      && Sound(Layout(), before, centre.Place(), Shown())
      && Saturated(Layout(), before, Shown(), {centre.Place()})
    }

    /** One turn of the placement loop, for the drawn position `d`. */
    method PlaceMine(src: Block, d: Cell) returns (placed: bool)
      requires Valid() && Has(src) && d in blocks
      modifies blocks.Values`mine
      ensures placed <==> Eligible(src.Place(), d) && d !in old(MineCells())
      ensures MineCells() == old(MineCells()) + if placed then {d} else {}
      ensures |MineCells()| == |old(MineCells())| + if placed then 1 else 0
    {
      var target := blocks[d];
      placed := target != src && target.mine == false && !IsBlockAround(src, target);
      if placed {
        ghost var mines := MineCells();
        target.mine := true;
        assert MineCells() == mines + {d} && d !in mines;
      }
    }

    /** Draws random positions until enough mines lie off the clicked block and its neighbours. */
    method HandleFirstClick(src: Block, draws: seq<Cell>) returns (done: bool)
      requires Valid() && Has(src) && forall d :: d in draws ==> d in blocks
      modifies blocks.Values`mine
      ensures MineCells() == Placed(old(MineCells()), src.Place(), draws, numOfMines)
      ensures done <==> |MineCells()| == |old(MineCells())| + numOfMines
    {
      var mineCount, i := 0, 0;
      ghost var was := MineCells();
      while mineCount < numOfMines && i < |draws|
        invariant 0 <= mineCount <= numOfMines && 0 <= i <= |draws|
        invariant |MineCells()| == |was| + mineCount
        invariant Placed(was, src.Place(), draws, numOfMines)
               == Placed(MineCells(), src.Place(), draws[i..], numOfMines - mineCount)
      {
        PlacedStep(MineCells(), src.Place(), draws, i, numOfMines - mineCount);
        var placed := PlaceMine(src, draws[i]);
        if placed {
          mineCount := mineCount + 1;
        }
        i := i + 1;
      }
      done := mineCount == numOfMines;
    }

    /** What holds between two clicks of a game that is neither won nor lost. */
    ghost predicate InPlay()
      reads this, blocks.Values
    {
      && Valid() && !firstClick && gameStatus == Busy
      && |MineCells()| == numOfMines && Shown() !! MineCells() && Settled(Layout(), Shown())
    }

    /** The first left click; `done` says that the random draws sufficed. */
    method FirstClick(block: Block, draws: seq<Cell>) returns (done: bool)
      requires Valid() && Has(block) && firstClick && gameStatus == Busy && Shown() == {} && MineCells() == {}
      requires forall d :: d in draws ==> d in blocks
      modifies this, blocks.Values
      ensures done <==> |Choices(block.Place(), draws)| >= numOfMines
      ensures MineCells() == Placed({}, block.Place(), draws, numOfMines)
      ensures done ==> InPlay() && forall c :: c in Shown() <==> Reaches(Layout(), {}, block.Place(), c)
      ensures done ==> forall d :: Adjacent(block.Place(), d) && OnBoard(Layout(), d) ==> d in Shown()
    {
      done := HandleFirstClick(block, draws);
      ghost var board := Layout();
      FirstClickIsBlank(board, block.Place(), draws, numOfMines);
      if done {
        firstClick := false;
        assert Settled(board, {}) && Shown() == {};
        OpenClicked(block);
        assert Layout() == board;
      }
    }

    /** Open on a clicked block of a settled field, in terms of the whole field. */
    method OpenClicked(block: Block)
      requires Valid() && Has(block) && Settled(Layout(), Shown()) && Shown() !! MineCells()
      modifies blocks.Values`open, this`gameStatus
      ensures forall c :: c in Shown() <==>
                c in old(Shown()) || (old(Closed(block)) && Reaches(Layout(), old(Shown()), block.Place(), c))
      ensures Settled(Layout(), Shown()) && block.Place() in Shown()
      ensures gameStatus == if old(Closed(block)) && block.mine then Lose else old(gameStatus)
      ensures !block.mine ==> Shown() !! MineCells()
      ensures old(Closed(block)) ==> Flooded(Layout(), old(Shown()), block.Place(), Shown())
    {
      ghost var before := Shown();
      Open(block, blocks.Keys);
      if old(Closed(block)) {
        ClickOutcome(Layout(), before, block.Place(), Shown());
      }
    }

    /** A later left click, with the win test that follows it. */
    method LaterClick(block: Block)
      requires InPlay() && Has(block)
      modifies this`gameStatus, blocks.Values`open
      ensures block.Place() in Shown() && forall c :: c in Shown() <==>
                c in old(Shown()) || (old(Closed(block)) && Reaches(Layout(), old(Shown()), block.Place(), c))
      ensures gameStatus == Busy ==> InPlay()
      ensures old(Closed(block)) && !block.mine ==>
                gameStatus == if Shown() == blocks.Keys - MineCells() then Won else Busy
      ensures old(Closed(block)) && block.mine ==>
                gameStatus == if |(blocks.Keys - MineCells()) - old(Shown())| == 1 then Won else Lose
      ensures !old(Closed(block)) ==>
                Shown() == old(Shown()) && gameStatus == if Shown() == blocks.Keys - MineCells() then Won else Busy
    {
      ghost var (before, board) := (Shown(), Layout());
      OpenClicked(block);
      if old(Closed(block)) {
        WinTest(board, blocks.Keys, before, block.Place(), Shown());
      } else {
        OpenBlockTest(blocks.Keys, MineCells(), Shown());
      }
      CheckWin();
    }

    /** The win test: count the open blocks, mines included. */
    method CheckWin()
      requires Valid()
      modifies this`gameStatus
      ensures gameStatus == if |Shown()| == |blocks| - numOfMines then Won else old(gameStatus)
    {
      var openBlocks := |set c | c in blocks && blocks[c].open|;
      assert Shown() == set c | c in blocks && blocks[c].open;
      GridSize(blocks.Keys, width, height);
      if openBlocks == height * width - numOfMines {
        gameStatus := Won;
      }
    }
  }

  /** A row of four blocks with a mine in the third: a click on the first opens the first two. */
  lemma RowOfFour(b: Board)
    requires b == Board(4, 1, {Cell(2, 0)})
    ensures forall c :: Reaches(b, {}, Cell(0, 0), c) <==> c == Cell(0, 0) || c == Cell(1, 0)
  {
    var (first, second) := (Cell(0, 0), Cell(1, 0));
    assert Blank(b, first);
    assert Joins([first], first, first) && Trail(b, {}, [first]);
    assert Hop(b, [first, second], 0);
    assert Joins([first, second], first, second) && Trail(b, {}, [first, second]);
    assert Adjacent(second, Cell(2, 0));
    assert Flooded(b, {}, first, {first, second});
    FloodExact(b, {}, first, {first, second});
  }

  /** The first click in that row. */
  method ClickInRow() returns (f: Field)
    ensures fresh(f) && f.InPlay() && f.width == 4 && f.height == 1 && forall c :: c in f.blocks ==> fresh(f.blocks[c])
    ensures f.Layout() == Board(4, 1, {Cell(2, 0)}) && f.Shown() == {Cell(0, 0), Cell(1, 0)}
  {
    f := new Field(4, 1, 1);
    var (first, mine) := (Cell(0, 0), Cell(2, 0));
    ChoicesAreDrawn(first, [mine], mine);
    OneOrMore(Choices(first, [mine]), mine);
    OneDraw(first, mine);
    var done := f.FirstClick(f.blocks[first], [mine]);
    RowOfFour(f.Layout());
  }

  lemma OneOrMore(s: set<Cell>, c: Cell)
    requires c in s
    ensures |s| >= 1
  {
  }

  lemma OneDraw(src: Cell, d: Cell)
    requires Eligible(src, d)
    ensures Placed({}, src, [d], 1) == {d}
  {
    assert [d][1..] == [];
  }

  /** In that row, a click on the mine reads as a win: three blocks are open, as many as have no mine. */
  method MineReadsAsWon() returns (f: Field)
    ensures fresh(f) && f.Valid() && f.gameStatus == Won && Cell(2, 0) in f.Shown() && Cell(2, 0) in f.MineCells()
  {
    f := ClickInRow();
    LastBlock(f.blocks.Keys);
    f.LaterClick(f.blocks[Cell(2, 0)]);
  }

  lemma LastBlock(cells: set<Cell>)
    requires forall c :: c in cells <==> 0 <= c.x < 4 && 0 <= c.y < 1
    ensures |(cells - {Cell(2, 0)}) - {Cell(0, 0), Cell(1, 0)}| == 1
  {
    assert (cells - {Cell(2, 0)}) - {Cell(0, 0), Cell(1, 0)} == {Cell(3, 0)};
  }
}
