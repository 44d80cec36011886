/**
 * The cell matrix watcher: it owns the 14 x 18 field of cells, builds an
 * empty or random field, overwrites single cells, attaches a shot ball next
 * to the ball it struck, and collects the same-type cells 8-connected to
 * the newly attached one.
 */
module Watcher {
  import opened Cells
  import opened RandomField
  import opened Wrappers

  /** The side of the struck ball that the shot ball touched. */
  datatype Side = Up | Down | Left | Right

  /** Where a ball touching side `side` of the ball at p is attached. */
  function Destination(side: Side, p: Pos): (r: Pos)
    ensures Adjacent(p, r) && (r.x == p.x || r.y == p.y)
  {
    match side
    case Up => Pos(p.x, p.y - 1)
    case Down => Pos(p.x, p.y + 1)
    case Left => Pos(p.x - 1, p.y)
    case Right => Pos(p.x + 1, p.y)
  }

  function Opposite(side: Side): (r: Side)
  {
    match side
    case Up => Down
    case Down => Up
    case Left => Right
    case Right => Left
  }

  /**
   * The attachment slot is one straight step from the struck ball, and the
   * opposite side leads back.
   */
  lemma DestinationStep(side: Side, p: Pos)
    ensures Destination(Opposite(side), Destination(side, p)) == p
    ensures Opposite(Opposite(side)) == side
  {
  }

  /**
   * Whether the attachment slot is inside the field for the sides that
   * the source writes without a bounds test (Down is tested instead).
   */
  predicate SideFits(side: Side, p: Pos)
  {
    match side
    case Up => p.y >= 1
    case Down => true
    case Left => p.x >= 1
    case Right => p.x + 1 < ROWS_COUNT
  }

  lemma SideFitsInGrid(side: Side, p: Pos)
    requires InGrid(p) && SideFits(side, p)
    requires side == Down ==> p.y + 1 < COLUMNS_COUNT
    ensures InGrid(Destination(side, p))
  {
  }

  /** What a connection event produced: the source's events as a value. */
  datatype Connection =
    | StrikerMissing                         // no cell holds the struck ball: nothing happens
    | OutOfBorder                            // the BallOutOfBorder event
    | Attached(at: Pos, group: seq<Pos>)     // the new cell and the cells the search collected

  /** A cell the search would still take: the target type and not yet visited. */
  predicate Fresh(c: Cell, t: CellType)
  {
    c.cellType == t && !c.visited
  }

  /** A 14 x 18 array whose every cell stores its own index. */
  ghost predicate WellShaped(a: array2<Cell>)
    reads a
  {
    a.Length0 == ROWS_COUNT && a.Length1 == COLUMNS_COUNT &&
    forall x, y :: 0 <= x < ROWS_COUNT && 0 <= y < COLUMNS_COUNT ==> a[x, y].x == x && a[x, y].y == y
  }

  /** Every element after the first is adjacent to an element before it. */
  ghost predicate Chained(s: seq<Pos>)
  {
    FoundFrom(s, |s|)
  }

  /**
   * The bookkeeping of the flood fill between two expansions: `checked`
   * starts with the seed; the seed followed by `unchecked` never repeats a
   * position; every position after the seed was fresh (of the target type
   * and unvisited) before the search; every fresh neighbour of a checked
   * position has been discovered; and every discovered position was found
   * from a checked position adjacent to it that comes earlier.
   */
  ghost predicate SearchState(seed: Pos, pool: set<Pos>, checked: seq<Pos>, unchecked: seq<Pos>)
  {
    var all := checked + unchecked;
    && |checked| >= 1 && checked[0] == seed && InGrid(seed)
    && Distinct(all)
    && (forall i :: 1 <= i < |all| ==> InGrid(all[i]) && all[i] in pool)
    && (forall i, q :: 0 <= i < |checked| && InGrid(q) && Adjacent(checked[i], q) && q in pool ==> q in all)
    && FoundFrom(all, |checked|)
  }

  /** Every element after the first is adjacent to an earlier one among the first n. */
  ghost predicate FoundFrom(s: seq<Pos>, n: int)
  {
    forall i :: 1 <= i < |s| ==> FoundAt(s, n, i)
  }

  /** s[i] is adjacent to an element before it among the first n. */
  ghost predicate FoundAt(s: seq<Pos>, n: int, i: int)
    requires 0 <= i < |s|
  {
    exists j :: 0 <= j < i && j < n && Adjacent(s[j], s[i])
  }

  /**
   * Expanding the head of the frontier with exactly its fresh, not yet
   * discovered neighbours (in any repetition-free order) and moving the head
   * to `checked` keeps the bookkeeping. With `checked` empty and the seed as
   * head this is also the first expansion.
   */
  lemma ExpandStep(seed: Pos, pool: set<Pos>, checked: seq<Pos>, unchecked: seq<Pos>, added: seq<Pos>)
    requires |unchecked| > 0
    requires checked == [] ==> unchecked == [seed] && InGrid(seed)
    requires checked != [] ==> SearchState(seed, pool, checked, unchecked)
    requires Distinct(added)
    requires forall q :: q in added <==> InGrid(q) && Adjacent(unchecked[0], q) && q in pool && q !in checked + unchecked
    ensures SearchState(seed, pool, checked + [unchecked[0]], unchecked[1..] + added)
  {
    var all := checked + unchecked;
    var checked', unchecked' := checked + [unchecked[0]], unchecked[1..] + added;
    assert checked' + unchecked' == all + added;
    ExpandDistinct(all, added);
    assert all[|checked|] == unchecked[0];
    ExpandChained(all, |checked|, added);
    ExpandClosed(pool, checked, unchecked, added);
  }

  /** Appending positions not yet discovered, without repetition, keeps the list repetition-free. */
  lemma ExpandDistinct(all: seq<Pos>, added: seq<Pos>)
    requires Distinct(all) && Distinct(added)
    requires forall q :: q in added ==> q !in all
    ensures Distinct(all + added)
  {
    var all' := all + added;
    forall i, j | 0 <= i < j < |all'|
      ensures all'[i] != all'[j]
    {
      if j >= |all| {
        assert all'[j] == added[j - |all|];
        assert added[j - |all|] in added;
        if i < |all| {
          assert all'[i] == all[i];
        } else {
          assert all'[i] == added[i - |all|];
        }
      }
    }
  }

  /** Neighbours of the head all[n], appended behind it, are found from a position up to n. */
  lemma ExpandChained(all: seq<Pos>, n: int, added: seq<Pos>)
    requires 0 <= n < |all|
    requires FoundFrom(all, n)
    requires forall q :: q in added ==> Adjacent(all[n], q)
    ensures FoundFrom(all + added, n + 1)
  {
    var all', m := all + added, n + 1;
    forall i | 1 <= i < |all'|
      ensures FoundAt(all', m, i)
    {
      if i >= |all| {
        assert all'[i] == added[i - |all|] && added[i - |all|] in added;
        assert all'[n] == all[n];
        assert Adjacent(all'[n], all'[i]);
      } else {
        assert FoundAt(all, n, i);
        var j :| 0 <= j < i && j < n && Adjacent(all[j], all[i]);
        assert all'[j] == all[j] && all'[i] == all[i];
      }
    }
  }

  /** After the head's neighbours are appended, every checked position has all its pool neighbours discovered. */
  lemma ExpandClosed(pool: set<Pos>, checked: seq<Pos>, unchecked: seq<Pos>, added: seq<Pos>)
    requires |unchecked| > 0
    requires forall i, q :: 0 <= i < |checked| && InGrid(q) && Adjacent(checked[i], q) && q in pool ==> q in checked + unchecked
    requires forall q :: InGrid(q) && Adjacent(unchecked[0], q) && q in pool && q !in checked + unchecked ==> q in added
    ensures var checked' := checked + [unchecked[0]];
            forall i, q :: 0 <= i < |checked'| && InGrid(q) && Adjacent(checked'[i], q) && q in pool ==> q in checked' + (unchecked[1..] + added)
  {
    var checked' := checked + [unchecked[0]];
    var all' := checked' + (unchecked[1..] + added);
    assert all' == checked + unchecked + added;
    forall i, q | 0 <= i < |checked'| && InGrid(q) && Adjacent(checked'[i], q) && q in pool
      ensures q in all'
    {
      if i < |checked| {
        assert checked'[i] == checked[i];
      }
    }
  }

  lemma FoundChained(s: seq<Pos>, n: int)
    requires FoundFrom(s, n)
    ensures Chained(s)
  {
    forall i | 1 <= i < |s|
      ensures FoundAt(s, |s|, i)
    {
      assert FoundAt(s, n, i);
    }
  }

  /**
   * With the frontier empty the search is complete: the checked list is
   * repetition-free and fits the field, and it is closed under pool
   * neighbours and 8-connected in order.
   */
  lemma SearchComplete(seed: Pos, pool: set<Pos>, checked: seq<Pos>)
    requires SearchState(seed, pool, checked, [])
    ensures |checked| >= 1 && checked[0] == seed
    ensures Distinct(checked) && |checked| <= ROWS_COUNT * COLUMNS_COUNT
    ensures forall i :: 1 <= i < |checked| ==> InGrid(checked[i]) && checked[i] in pool
    ensures forall i, q :: 0 <= i < |checked| && InGrid(q) && Adjacent(checked[i], q) && q in pool ==> q in checked
    ensures Chained(checked)
  {
    assert checked + [] == checked;
    forall i | 0 <= i < |checked|
      ensures InGrid(checked[i])
    {
    }
    DistinctPositionsBound(checked);
    FoundChained(checked, |checked|);
  }

  /** Moving the head of the frontier to `checked` keeps the discovery order. */
  lemma ShiftHead<T>(checked: seq<T>, unchecked: seq<T>, added: seq<T>)
    requires |unchecked| > 0
    ensures (checked + [unchecked[0]]) + (unchecked[1..] + added) == (checked + unchecked) + added
  {
    assert unchecked == [unchecked[0]] + unchecked[1..];
  }

  /** An element of s is in its first n elements or in the rest. */
  lemma SplitMembers<T>(s: seq<T>, n: nat)
    requires n <= |s|
    ensures forall q :: q in s <==> q in s[..n] || q in s[n..]
  {
    assert s == s[..n] + s[n..];
  }

  /** A suffix whose elements come in strictly increasing row-major order repeats nothing. */
  lemma SortedSuffixDistinct(s: seq<Pos>, k: nat)
    requires k <= |s|
    requires forall i, j :: k <= i < j < |s| ==> Before(s[i], s[j])
    ensures Distinct(s[k..])
  {
    forall i, j | 0 <= i < j < |s| - k
      ensures s[k..][i] != s[k..][j]
    {
      assert Before(s[k + i], s[k + j]);
    }
  }

  class CellsMatrixWatcher {
    /** The injected mapping from a ball type to the cell type it shows as. */
    const relation: BallType -> CellType
    /** The game settings' bounds for the number of random balls. */
    const minBalls: int
    const maxBalls: int

    var cells: array2<Cell>

    ghost predicate Valid()
      reads this, cells
    {
      WellShaped(cells)
    }

    /**
     * The ball counts the engine's integer range draw can yield from the
     * settings: the half-open range [minBalls, maxBalls), or minBalls itself
     * when that range is empty.
     */
    predicate AmountDrawable(amount: int)
    {
      if minBalls < maxBalls then minBalls <= amount < maxBalls else amount == minBalls
    }

    /** The occupied (non-empty) positions of the field. */
    ghost function Occupied(): (r: set<Pos>)
      reads this, cells
      requires Valid()
    {
      set x, y | 0 <= x < ROWS_COUNT && 0 <= y < COLUMNS_COUNT && cells[x, y].cellType != E :: Pos(x, y)
    }

    /**
     * p holds `ball` and no position before it in row-major order does:
     * the cell a row-major scan for `ball` stops at.
     */
    ghost predicate IsFirstHolder(p: Pos, ball: BallSprite?)
      reads this, cells
      requires Valid() && InGrid(p)
    {
      cells[p.x, p.y].occupant == ball &&
      forall x, y :: 0 <= x < ROWS_COUNT && 0 <= y < COLUMNS_COUNT && Before(Pos(x, y), p) ==> cells[x, y].occupant != ball
    }

    constructor (relation: BallType -> CellType, minBalls: int, maxBalls: int)
      ensures Valid() && fresh(cells)
      ensures this.relation == relation && this.minBalls == minBalls && this.maxBalls == maxBalls
      ensures forall x, y :: 0 <= x < ROWS_COUNT && 0 <= y < COLUMNS_COUNT ==> cells[x, y] == EmptyCell(x, y)
    {
      this.relation := relation;
      this.minBalls := minBalls;
      this.maxBalls := maxBalls;
      cells := new Cell[ROWS_COUNT, COLUMNS_COUNT]((x, y) => EmptyCell(x, y));
    }

    /** Fills every slot with an empty cell that stores its own index. */
    method CreateEmptyFieldOfCells()
      requires Valid()
      modifies cells
      ensures Valid()
      ensures forall x, y :: 0 <= x < ROWS_COUNT && 0 <= y < COLUMNS_COUNT ==> cells[x, y] == EmptyCell(x, y)
      ensures Occupied() == {}
    {
      for x := 0 to ROWS_COUNT
        invariant forall i, j :: 0 <= i < x && 0 <= j < COLUMNS_COUNT ==> cells[i, j] == EmptyCell(i, j)
      {
        for y := 0 to COLUMNS_COUNT
          invariant forall i, j :: 0 <= i < x && 0 <= j < COLUMNS_COUNT ==> cells[i, j] == EmptyCell(i, j)
          invariant forall j :: 0 <= j < y ==> cells[x, j] == EmptyCell(x, j)
        {
          cells[x, y] := EmptyCell(x, y);
        }
      }
    }

    /**
     * Empties the field, then makes placement attempts from `draws` until
     * `amount` of them have placed a ball. `amount` is the ball count drawn
     * from the settings (see AmountDrawable); `used` is the number of
     * attempts consumed.
     */
    method CreateRandomField(amount: int, draws: seq<Draw>) returns (used: nat)
      requires Valid()
      requires AmountDrawable(amount)
      requires AllWellDrawn(draws) && Placements(draws) >= amount
      modifies cells
      ensures Valid()
      ensures used <= |draws|
      ensures Placements(draws[..used]) == Max(amount, 0)
      ensures used == 0 || Places(draws[used - 1])
      ensures FieldAfter(draws[..used])
      ensures Occupied() == PlacedAt(draws[..used])
      ensures |Occupied()| <= Max(amount, 0)
      ensures forall p :: p in Occupied() ==> 1 <= p.x <= ROWS_COUNT - 2 && 0 <= p.y <= COLUMNS_COUNT - 9
    {
      CreateEmptyFieldOfCells();
      assert draws[..0] == [];
      used := PlaceBalls(amount, draws);
      OccupiedAfter(draws[..used]);
    }

    /**
     * The rejection loop of the random field: attempts are made in order
     * until `amount` of them have placed a ball.
     */
    method PlaceBalls(amount: int, draws: seq<Draw>) returns (used: nat)
      requires Valid() && AllWellDrawn(draws) && Placements(draws) >= amount
      requires FieldAfter(draws[..0])
      modifies cells
      ensures Valid()
      ensures used <= |draws|
      ensures Placements(draws[..used]) == Max(amount, 0)
      ensures used == 0 || Places(draws[used - 1])
      ensures FieldAfter(draws[..used])
    {
      var i := 0;
      used := 0;
      while i < amount
        invariant Valid()
        invariant used <= |draws|
        invariant i == Placements(draws[..used]) && i <= Max(amount, 0)
        invariant used == 0 || Places(draws[used - 1]) || i < amount
        invariant FieldAfter(draws[..used])
        decreases |draws| - used
      {
        assert draws[..|draws|] == draws;
        var placed := PlaceDrawn(draws, used);
        if placed {
          i := i + 1;
        }
        PlacementsStep(draws, used);
        used := used + 1;
      }
    }

    /** The field is the one the attempts ds build from the empty field. */
    ghost predicate FieldAfter(ds: seq<Draw>)
      reads this, cells
      requires Valid() && AllWellDrawn(ds)
    {
      forall x, y :: 0 <= x < ROWS_COUNT && 0 <= y < COLUMNS_COUNT ==> cells[x, y] == CellAfter(ds, Pos(x, y))
    }

    /**
     * One placement attempt, the draws[k]: a non-E colour writes a fresh
     * cell at the drawn slot, over whatever it held.
     */
    method PlaceDrawn(draws: seq<Draw>, k: nat) returns (placed: bool)
      requires Valid() && AllWellDrawn(draws) && k < |draws|
      requires FieldAfter(draws[..k])
      modifies cells
      ensures Valid()
      ensures placed <==> Places(draws[k])
      ensures FieldAfter(draws[..k + 1])
    {
      var d := draws[k];
      placed := CellTypes[d.typeIndex] != E;
      if placed {
        cells[d.row, d.column] := Cell(CellTypes[d.typeIndex], null, d.row, d.column, false);
      }
      forall x, y | 0 <= x < ROWS_COUNT && 0 <= y < COLUMNS_COUNT
        ensures cells[x, y] == CellAfter(draws[..k + 1], Pos(x, y))
      {
        CellAfterStep(draws, k, Pos(x, y));
      }
    }

    /** A field built by the attempts ds is occupied exactly where they placed. */
    lemma OccupiedAfter(ds: seq<Draw>)
      requires Valid() && AllWellDrawn(ds)
      requires FieldAfter(ds)
      ensures Occupied() == PlacedAt(ds) && |Occupied()| <= Placements(ds)
      ensures forall p :: p in Occupied() ==> 1 <= p.x <= ROWS_COUNT - 2 && 0 <= p.y <= COLUMNS_COUNT - 9
    {
      PlacedInRegion(ds);
      PlacedAtMostCounted(ds);
      forall p | p in PlacedAt(ds)
        ensures p in Occupied()
      {
        CellAfterShape(ds, p);
      }
      forall p | p in Occupied()
        ensures p in PlacedAt(ds)
      {
        CellAfterShape(ds, p);
      }
    }

    /** Replaces the field with a caller-supplied one (the array itself, not a copy). */
    method SetLevelField(levelField: array2<Cell>)
      requires WellShaped(levelField)
      modifies this
      ensures cells == levelField && Valid()
    {
      cells := levelField;
    }

    /** Overwrites slot (x, y) with a fresh cell for a ball of type `ballType`. */
    method ChangeCellInfo(ballType: BallType, ballSprite: BallSprite?, x: int, y: int)
      requires Valid() && InGrid(Pos(x, y))
      modifies cells
      ensures Valid()
      ensures cells[x, y] == Cell(relation(ballType), ballSprite, x, y, false)
      ensures forall i, j :: 0 <= i < ROWS_COUNT && 0 <= j < COLUMNS_COUNT && (i, j) != (x, y) ==> cells[i, j] == old(cells[i, j])
    {
      cells[x, y] := Cell(relation(ballType), ballSprite, x, y, false);
    }

    /** The first cell in row-major order whose occupant is `ball`, if any. */
    method FindCellByBall(ball: BallSprite?) returns (found: Option<Cell>)
      requires Valid()
      ensures found.None? <==> forall x, y :: 0 <= x < ROWS_COUNT && 0 <= y < COLUMNS_COUNT ==> cells[x, y].occupant != ball
      ensures found.Some? ==>
                var p := Pos(found.value.x, found.value.y);
                InGrid(p) && cells[p.x, p.y] == found.value && IsFirstHolder(p, ball)
    {
      for x := 0 to ROWS_COUNT
        invariant forall i, j :: 0 <= i < x && 0 <= j < COLUMNS_COUNT ==> cells[i, j].occupant != ball
      {
        for y := 0 to COLUMNS_COUNT
          invariant forall i, j :: 0 <= i < x && 0 <= j < COLUMNS_COUNT ==> cells[i, j].occupant != ball
          invariant forall j :: 0 <= j < y ==> cells[x, j].occupant != ball
        {
          if cells[x, y].occupant == ball {
            return Some(cells[x, y]);
          }
        }
      }
      return None;
    }

    /**
     * Attaches the shot ball next to the cell holding `striker`, on the side
     * it touched, then collects the cells connected to the new one. The new
     * cell takes the shot ball's type but records `striker` as its occupant.
     * A Down attachment beyond the last column is refused with OutOfBorder;
     * the other sides are not tested, so their callers keep them inside.
     */
    method ProcessBallConnection(side: Side, striker: BallSprite?, shot: BallSprite) returns (outcome: Connection)
      requires Valid()
      requires forall x, y :: 0 <= x < ROWS_COUNT && 0 <= y < COLUMNS_COUNT && IsFirstHolder(Pos(x, y), striker) ==> SideFits(side, Pos(x, y))
      modifies cells
      ensures Valid()
      ensures outcome.StrikerMissing? <==> forall x, y :: 0 <= x < ROWS_COUNT && 0 <= y < COLUMNS_COUNT ==> old(cells[x, y]).occupant != striker
      ensures forall x, y :: 0 <= x < ROWS_COUNT && 0 <= y < COLUMNS_COUNT && old(IsFirstHolder(Pos(x, y), striker)) ==>
                if side == Down && y + 1 >= COLUMNS_COUNT then outcome == OutOfBorder
                else outcome.Attached? && outcome.at == Destination(side, Pos(x, y))
      ensures !outcome.Attached? ==> forall x, y :: 0 <= x < ROWS_COUNT && 0 <= y < COLUMNS_COUNT ==> cells[x, y] == old(cells[x, y])
      ensures outcome.Attached? ==>
                var d, group, t := outcome.at, outcome.group, relation(shot.ballType);
                && InGrid(d)
                && cells[d.x, d.y] == Cell(t, striker, d.x, d.y, true)
                && |group| >= 1 && group[0] == d
                && Distinct(group) && |group| <= ROWS_COUNT * COLUMNS_COUNT
                && (forall i :: 0 <= i < |group| ==> InGrid(group[i]))
                && (forall i :: 1 <= i < |group| ==> Fresh(old(cells[group[i].x, group[i].y]), t))
                && (forall i, q :: 0 <= i < |group| && InGrid(q) && Adjacent(group[i], q) && q != d && Fresh(old(cells[q.x, q.y]), t) ==> q in group)
                && Chained(group)
                && (forall x, y :: 0 <= x < ROWS_COUNT && 0 <= y < COLUMNS_COUNT && Pos(x, y) != d ==>
                      cells[x, y] == if Pos(x, y) in group then old(cells[x, y]).(visited := true) else old(cells[x, y]))
    {
      var original := FindCellByBall(striker);
      if original.None? {
        return StrikerMissing;
      }
      var s := Pos(original.value.x, original.value.y);
      var t := relation(shot.ballType);
      if side == Down && s.y + 1 >= COLUMNS_COUNT {
        return OutOfBorder;
      }
      var d := Destination(side, s);
      SideFitsInGrid(side, s);
      var group := AttachAt(shot.ballType, striker, d);
      outcome := Attached(d, group);
      assert forall x, y :: 0 <= x < ROWS_COUNT && 0 <= y < COLUMNS_COUNT && old(IsFirstHolder(Pos(x, y), striker)) ==> Pos(x, y) == s;
    }

    /**
     * A Down connection under a ball in the last column is refused without
     * touching the field, so the same call made again is refused again.
     */
    method RepeatOutOfBorder(striker: BallSprite?, shot: BallSprite, ghost p: Pos) returns (first: Connection, second: Connection)
      requires Valid() && InGrid(p) && p.y == COLUMNS_COUNT - 1 && IsFirstHolder(p, striker)
      modifies cells
      ensures Valid()
      ensures first == OutOfBorder && second == OutOfBorder
      ensures forall x, y :: 0 <= x < ROWS_COUNT && 0 <= y < COLUMNS_COUNT ==> cells[x, y] == old(cells[x, y])
    {
      first := ProcessBallConnection(Down, striker, shot);
      second := ProcessBallConnection(Down, striker, shot);
    }

    /**
     * Writes the new cell at d (of the shot ball's cell type, occupant
     * `striker`) and collects the group connected to it. Apart from d, the
     * group and the marks are described against the field before the write.
     */
    method AttachAt(ballType: BallType, striker: BallSprite?, d: Pos) returns (group: seq<Pos>)
      requires Valid() && InGrid(d)
      modifies cells
      ensures Valid()
      ensures var t := relation(ballType);
              && cells[d.x, d.y] == Cell(t, striker, d.x, d.y, true)
              && |group| >= 1 && group[0] == d
              && Distinct(group) && |group| <= ROWS_COUNT * COLUMNS_COUNT
              && (forall i :: 0 <= i < |group| ==> InGrid(group[i]))
              && (forall i :: 1 <= i < |group| ==> Fresh(old(cells[group[i].x, group[i].y]), t))
              && (forall i, q :: 0 <= i < |group| && InGrid(q) && Adjacent(group[i], q) && q != d && Fresh(old(cells[q.x, q.y]), t) ==> q in group)
              && Chained(group)
              && (forall x, y :: 0 <= x < ROWS_COUNT && 0 <= y < COLUMNS_COUNT && Pos(x, y) != d ==>
                    cells[x, y] == if Pos(x, y) in group then old(cells[x, y]).(visited := true) else old(cells[x, y]))
    {
      cells[d.x, d.y] := Cell(relation(ballType), striker, d.x, d.y, false);
      group := FindAllNeighbors(ballType, d.x, d.y);
      forall i | 1 <= i < |group|
        ensures group[i] != d
      {
        assert group[0] == d;
      }
    }

    /**
     * Collects, from the seed (x, y), the cells of the ball type's cell type
     * that are 8-connected to it through such cells and not yet visited,
     * marking each visited: the seed first, then a frontier list expanded
     * from its head until it is empty.
     */
    method FindAllNeighbors(ballType: BallType, x: int, y: int) returns (checked: seq<Pos>)
      requires Valid() && InGrid(Pos(x, y))
      modifies cells
      ensures Valid()
      ensures |checked| >= 1 && checked[0] == Pos(x, y)
      ensures Distinct(checked) && |checked| <= ROWS_COUNT * COLUMNS_COUNT
      ensures forall i :: 1 <= i < |checked| ==>
                InGrid(checked[i]) && Fresh(old(cells[checked[i].x, checked[i].y]), relation(ballType))
      ensures forall i, q :: 0 <= i < |checked| && InGrid(q) && Adjacent(checked[i], q) && Fresh(old(cells[q.x, q.y]), relation(ballType)) ==> q in checked
      ensures Chained(checked)
      ensures forall i, j :: 0 <= i < ROWS_COUNT && 0 <= j < COLUMNS_COUNT ==>
                cells[i, j] == if Pos(i, j) in checked then old(cells[i, j]).(visited := true) else old(cells[i, j])
    {
      var t := relation(ballType);
      var seed := Pos(x, y);
      ghost var pool := FreshPositions(t);
      var unchecked;
      checked, unchecked := StartSearch(t, seed, pool);
      while |unchecked| > 0
        invariant Valid()
        invariant forall q :: q in pool <==> InGrid(q) && Fresh(old(cells[q.x, q.y]), t)
        invariant SearchState(seed, pool, checked, unchecked)
        invariant FreshOutside(t, pool, checked + unchecked)
        invariant forall i, j :: 0 <= i < ROWS_COUNT && 0 <= j < COLUMNS_COUNT ==>
                    cells[i, j] == if Pos(i, j) in checked + unchecked then old(cells[i, j]).(visited := true) else old(cells[i, j])
        decreases |FreshPositions(t)|, |unchecked|
      {
        ghost var all := checked + unchecked;
        label mid:
        checked, unchecked := CheckNeighbor(t, seed, pool, checked, unchecked);
        forall i, j | 0 <= i < ROWS_COUNT && 0 <= j < COLUMNS_COUNT
          ensures cells[i, j] == if Pos(i, j) in checked + unchecked then old(cells[i, j]).(visited := true) else old(cells[i, j])
        {
          SplitMembers(checked + unchecked, |all|);
          assert old@mid(cells[i, j]) == if Pos(i, j) in all then old(cells[i, j]).(visited := true) else old(cells[i, j]);
        }
      }
      assert checked + unchecked == checked;
      SearchComplete(seed, pool, checked);
    }

    /**
     * The start of the flood fill: the seed is marked visited and becomes
     * the only checked position, and its fresh neighbours form the frontier.
     */
    method StartSearch(t: CellType, seed: Pos, ghost pool: set<Pos>) returns (checked: seq<Pos>, unchecked: seq<Pos>)
      requires Valid() && InGrid(seed)
      requires forall q :: q in pool <==> InGrid(q) && Fresh(cells[q.x, q.y], t)
      modifies cells
      ensures Valid()
      ensures SearchState(seed, pool, checked, unchecked)
      ensures FreshOutside(t, pool, checked + unchecked)
      ensures forall i, j :: 0 <= i < ROWS_COUNT && 0 <= j < COLUMNS_COUNT ==>
                cells[i, j] == if Pos(i, j) in checked + unchecked then old(cells[i, j]).(visited := true) else old(cells[i, j])
    {
      cells[seed.x, seed.y] := cells[seed.x, seed.y].(visited := true);
      checked := [seed];
      unchecked := TakeNeighbours(t, seed, pool, checked, []);
      assert unchecked[0..] == unchecked;
      ExpandStep(seed, pool, [], [seed], unchecked);
      assert [] + [[seed][0]] == checked && [seed][1..] + unchecked == unchecked;
    }

    /** Outside the discovered positions `all`, the fresh cells are exactly those of the pool. */
    ghost predicate FreshOutside(t: CellType, pool: set<Pos>, all: seq<Pos>)
      reads this, cells
      requires Valid()
    {
      forall q :: InGrid(q) ==> (Fresh(cells[q.x, q.y], t) <==> q in pool && q !in all)
    }

    /**
     * One expansion of the flood fill: the head of `unchecked` has its
     * fresh neighbours marked and appended, then moves to `checked`.
     */
    method CheckNeighbor(t: CellType, ghost seed: Pos, ghost pool: set<Pos>, checked: seq<Pos>, unchecked: seq<Pos>)
      returns (checked': seq<Pos>, unchecked': seq<Pos>)
      requires Valid() && |unchecked| > 0
      requires SearchState(seed, pool, checked, unchecked)
      requires FreshOutside(t, pool, checked + unchecked)
      modifies cells
      ensures Valid()
      ensures SearchState(seed, pool, checked', unchecked')
      ensures FreshOutside(t, pool, checked' + unchecked')
      ensures checked' == checked + [unchecked[0]]
      ensures |checked + unchecked| <= |checked' + unchecked'| && (checked' + unchecked')[..|checked + unchecked|] == checked + unchecked
      ensures forall i, j :: 0 <= i < ROWS_COUNT && 0 <= j < COLUMNS_COUNT ==>
                cells[i, j] == if Pos(i, j) in (checked' + unchecked')[|checked + unchecked|..]
                               then old(cells[i, j]).(visited := true) else old(cells[i, j])
      ensures |FreshPositions(t)| < old(|FreshPositions(t)|) || (|FreshPositions(t)| == old(|FreshPositions(t)|) && |unchecked'| < |unchecked|)
    {
      var head := unchecked[0];
      assert head == (checked + unchecked)[|checked|];
      ghost var all := checked + unchecked;
      var grown := TakeNeighbours(t, head, pool, all, unchecked);
      var added := grown[|unchecked|..];
      assert grown == unchecked + added;
      ExpandStep(seed, pool, checked, unchecked, added);
      assert grown[1..] == unchecked[1..] + added;
      ShiftHead(checked, unchecked, added);
      checked' := checked + [head];
      unchecked' := grown[1..];
      assert (checked' + unchecked')[|all|..] == added;
    }

    /**
     * The neighbour scan around `head` seen from the flood fill: when the
     * fresh cells outside the discovered positions `all` are those of the
     * pool, it appends exactly the pool's undiscovered neighbours of `head`,
     * without repetition, and the number of fresh cells drops by as many.
     */
    method TakeNeighbours(t: CellType, head: Pos, ghost pool: set<Pos>, ghost all: seq<Pos>, unchecked: seq<Pos>)
      returns (grown: seq<Pos>)
      requires Valid() && InGrid(head)
      requires FreshOutside(t, pool, all)
      modifies cells
      ensures Valid()
      ensures |unchecked| <= |grown| && grown[..|unchecked|] == unchecked
      ensures forall q :: q in grown[|unchecked|..] <==> InGrid(q) && Adjacent(head, q) && q in pool && q !in all
      ensures Distinct(grown[|unchecked|..])
      ensures FreshOutside(t, pool, all + grown[|unchecked|..])
      ensures forall i, j :: 0 <= i < ROWS_COUNT && 0 <= j < COLUMNS_COUNT ==>
                cells[i, j] == if Pos(i, j) in grown[|unchecked|..] then old(cells[i, j]).(visited := true) else old(cells[i, j])
      ensures |FreshPositions(t)| < old(|FreshPositions(t)|) || (|FreshPositions(t)| == old(|FreshPositions(t)|) && |grown| == |unchecked|)
    {
      ghost var before := FreshPositions(t);
      grown := CheckForNearbyNeighbors(t, head, unchecked);
      var added := grown[|unchecked|..];
      forall q | q in added
        ensures InGrid(q) && Adjacent(head, q) && Fresh(old(cells[q.x, q.y]), t)
      {
        var k :| 0 <= k < |added| && added[k] == q;
        assert grown[|unchecked| + k] == q;
      }
      SortedSuffixDistinct(grown, |unchecked|);
      FreshShrinks(t, before, added);
    }

    /**
     * After a scan marked `added`, and nothing else, the fresh positions are
     * a subset of the earlier ones, a strict one when something was added.
     */
    lemma FreshShrinks(t: CellType, before: set<Pos>, added: seq<Pos>)
      requires Valid()
      requires forall p :: p in before ==> InGrid(p)
      requires forall p :: InGrid(p) && Fresh(cells[p.x, p.y], t) ==> p in before
      requires forall i :: 0 <= i < |added| ==> added[i] in before && InGrid(added[i]) && !Fresh(cells[added[i].x, added[i].y], t)
      ensures |FreshPositions(t)| < |before| || (|FreshPositions(t)| == |before| && added == [])
    {
      var now := FreshPositions(t);
      assert now <= before;
      if added != [] {
        assert added[0] in before - now;
        StrictSubsetCard(now, before);
      } else {
        SubsetCard(now, before);
      }
    }

    /** The positions whose cell currently has type t and is not visited. */
    ghost function FreshPositions(t: CellType): (f: set<Pos>)
      reads this, cells
      requires Valid()
      ensures forall p :: p in f <==> InGrid(p) && Fresh(cells[p.x, p.y], t)
    {
      set i, j | 0 <= i < ROWS_COUNT && 0 <= j < COLUMNS_COUNT && Fresh(cells[i, j], t) :: Pos(i, j)
    }

    /**
     * Scans the up to 8 slots around c. Each one of type t that is not yet
     * visited is marked visited and appended to `unchecked`, in row-major
     * order; nothing else changes.
     */
    method CheckForNearbyNeighbors(t: CellType, c: Pos, unchecked: seq<Pos>) returns (after: seq<Pos>)
      requires Valid() && InGrid(c)
      modifies cells
      ensures Valid()
      ensures |unchecked| <= |after| && after[..|unchecked|] == unchecked
      ensures forall i :: |unchecked| <= i < |after| ==>
                InGrid(after[i]) && Adjacent(c, after[i]) && Fresh(old(cells[after[i].x, after[i].y]), t)
      ensures forall q :: InGrid(q) && Adjacent(c, q) && Fresh(old(cells[q.x, q.y]), t) ==> q in after[|unchecked|..]
      ensures forall i, j :: |unchecked| <= i < j < |after| ==> Before(after[i], after[j])
      ensures forall x, y :: 0 <= x < ROWS_COUNT && 0 <= y < COLUMNS_COUNT ==>
                cells[x, y] == if Adjacent(c, Pos(x, y)) && Fresh(old(cells[x, y]), t)
                               then old(cells[x, y]).(visited := true) else old(cells[x, y])
    {
      var added: seq<Pos> := [];
      var lo, hi := ScanLower(c.x), ScanUpper(c.x, ROWS_COUNT);
      for x := lo to hi + 1
        invariant Valid()
        invariant forall i :: 0 <= i < |added| ==>
                    lo <= added[i].x < x && InScan(c, added[i]) && Fresh(old(cells[added[i].x, added[i].y]), t)
        invariant forall q: Pos :: lo <= q.x < x && InScan(c, q) && Fresh(old(cells[q.x, q.y]), t) ==> q in added
        invariant forall i, j :: 0 <= i < j < |added| ==> Before(added[i], added[j])
        invariant forall i, j :: 0 <= i < x && 0 <= j < COLUMNS_COUNT ==>
                    cells[i, j] == if InScan(c, Pos(i, j)) && Fresh(old(cells[i, j]), t)
                                   then old(cells[i, j]).(visited := true) else old(cells[i, j])
        invariant forall i, j :: x <= i < ROWS_COUNT && 0 <= j < COLUMNS_COUNT ==> cells[i, j] == old(cells[i, j])
      {
        var row := ScanRow(t, c, x);
        added := added + row;
      }
      forall q
        ensures InScan(c, q) <==> InGrid(q) && Adjacent(c, q)
      {
        ScanWindow(c, q);
      }
      after := unchecked + added;
      assert after[|unchecked|..] == added;
    }

    /**
     * The part of the neighbour scan around c that walks row x: the slots
     * (x, y) with y within one step of c.y, in increasing y. It returns
     * the fresh ones (RowFresh of that stretch) and marks them visited.
     */
    method ScanRow(t: CellType, c: Pos, x: int) returns (added: seq<Pos>)
      requires Valid() && InGrid(c) && ScanLower(c.x) <= x <= ScanUpper(c.x, ROWS_COUNT)
      modifies cells
      ensures Valid()
      ensures forall i :: 0 <= i < |added| ==>
                added[i].x == x && InScan(c, added[i]) && Fresh(old(cells[x, added[i].y]), t)
      ensures forall q: Pos :: q.x == x && InScan(c, q) && Fresh(old(cells[x, q.y]), t) ==> q in added
      ensures forall i, j :: 0 <= i < j < |added| ==> added[i].y < added[j].y
      ensures forall i, j :: 0 <= i < ROWS_COUNT && i != x && 0 <= j < COLUMNS_COUNT ==> cells[i, j] == old(cells[i, j])
      ensures forall j :: 0 <= j < COLUMNS_COUNT ==>
                cells[x, j] == if InScan(c, Pos(x, j)) && Fresh(old(cells[x, j]), t)
                               then old(cells[x, j]).(visited := true) else old(cells[x, j])
    {
      RowFreshScan(t, c, x);
      added := [];
      var lo, hi := ScanLower(c.y), ScanUpper(c.y, COLUMNS_COUNT);
      for y := lo to hi + 1
        invariant Valid()
        invariant added == old(RowFresh(t, c, x, lo, y))
        invariant forall i, j :: 0 <= i < ROWS_COUNT && i != x && 0 <= j < COLUMNS_COUNT ==> cells[i, j] == old(cells[i, j])
        invariant forall j :: 0 <= j < COLUMNS_COUNT ==>
                    cells[x, j] == if lo <= j < y && Pos(x, j) != c && Fresh(old(cells[x, j]), t)
                                   then old(cells[x, j]).(visited := true) else old(cells[x, j])
      {
        var taken := TakeIfFresh(t, c, Pos(x, y));
        if taken {
          added := added + [Pos(x, y)];
        }
      }
    }

    /** The slots (x, lo) .. (x, y - 1), other than c, that hold a fresh cell of type t, in order. */
    ghost function RowFresh(t: CellType, c: Pos, x: int, lo: int, y: int): (r: seq<Pos>)
      reads this, cells
      requires Valid() && 0 <= x < ROWS_COUNT && 0 <= lo <= y <= COLUMNS_COUNT
      decreases y - lo
    {
      if y == lo then []
      else RowFresh(t, c, x, lo, y - 1) + if Pos(x, y - 1) != c && Fresh(cells[x, y - 1], t) then [Pos(x, y - 1)] else []
    }

    /**
     * RowFresh holds exactly the fresh slots of its stretch of row x other
     * than c, each once, in increasing column order.
     */
    lemma {:induction false} RowFreshMembers(t: CellType, c: Pos, x: int, lo: int, y: int)
      requires Valid() && 0 <= x < ROWS_COUNT && 0 <= lo <= y <= COLUMNS_COUNT
      ensures forall i :: 0 <= i < |RowFresh(t, c, x, lo, y)| ==>
                var q := RowFresh(t, c, x, lo, y)[i];
                q.x == x && lo <= q.y < y && q != c && Fresh(cells[x, q.y], t)
      ensures forall j :: lo <= j < y && Pos(x, j) != c && Fresh(cells[x, j], t) ==> Pos(x, j) in RowFresh(t, c, x, lo, y)
      ensures forall i, j :: 0 <= i < j < |RowFresh(t, c, x, lo, y)| ==>
                RowFresh(t, c, x, lo, y)[i].y < RowFresh(t, c, x, lo, y)[j].y
      decreases y - lo
    {
      if y > lo {
        RowFreshMembers(t, c, x, lo, y - 1);
      }
    }

    /**
     * The fresh slots RowFresh finds on row x of the scan window around c
     * are exactly the fresh scanned slots of that row, in column order.
     */
    lemma RowFreshScan(t: CellType, c: Pos, x: int)
      requires Valid() && InGrid(c) && ScanLower(c.x) <= x <= ScanUpper(c.x, ROWS_COUNT)
      ensures var r := RowFresh(t, c, x, ScanLower(c.y), ScanUpper(c.y, COLUMNS_COUNT) + 1);
              && (forall i :: 0 <= i < |r| ==> r[i].x == x && InScan(c, r[i]) && Fresh(cells[x, r[i].y], t))
              && (forall q: Pos :: q.x == x && InScan(c, q) && Fresh(cells[x, q.y], t) ==> q in r)
              && (forall i, j :: 0 <= i < j < |r| ==> r[i].y < r[j].y)
    {
      RowFreshMembers(t, c, x, ScanLower(c.y), ScanUpper(c.y, COLUMNS_COUNT) + 1);
    }

    /**
     * One step of the scan: the slot p, unless it is the centre c, is taken
     * (marked visited) when it has type t and is not yet visited.
     */
    method TakeIfFresh(t: CellType, c: Pos, p: Pos) returns (taken: bool)
      requires Valid() && InGrid(p)
      modifies cells
      ensures Valid()
      ensures taken <==> p != c && Fresh(old(cells[p.x, p.y]), t)
      ensures cells[p.x, p.y] == if taken then old(cells[p.x, p.y]).(visited := true) else old(cells[p.x, p.y])
      ensures forall i, j :: 0 <= i < ROWS_COUNT && 0 <= j < COLUMNS_COUNT && (i != p.x || j != p.y) ==> cells[i, j] == old(cells[i, j])
    {
      taken := false;
      if p.x != c.x || p.y != c.y {
        if cells[p.x, p.y].cellType == t && !cells[p.x, p.y].visited {
          cells[p.x, p.y] := cells[p.x, p.y].(visited := true);
          taken := true;
        }
      }
    }
  }
}
