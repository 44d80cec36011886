/**
 * The random starting field, as a function of the random draws. Each
 * placement attempt draws a row in [1, ROWS_COUNT - 1), a column in
 * [0, COLUMNS_COUNT - 8) and an index into the table [R, G, B, Y, E]; an
 * attempt that draws E is rejected and does not count, any other writes a
 * fresh cell over whatever the slot held.
 */
module RandomField {
  import opened Cells

  /** The cell-type table the colour index is drawn from. */
  const CellTypes: seq<CellType> := [R, G, B, Y, E]

  /** One placement attempt: the three values drawn for it. */
  datatype Draw = Draw(row: int, column: int, typeIndex: int)

  /** The ranges the three draws of an attempt come from. */
  predicate WellDrawn(d: Draw)
  {
    1 <= d.row < ROWS_COUNT - 1 && 0 <= d.column < COLUMNS_COUNT - 8 && 0 <= d.typeIndex < |CellTypes|
  }

  predicate AllWellDrawn(ds: seq<Draw>)
  {
    forall i :: 0 <= i < |ds| ==> WellDrawn(ds[i])
  }

  /** Whether an attempt places a ball (it did not draw E). */
  predicate Places(d: Draw)
    requires WellDrawn(d)
  {
    CellTypes[d.typeIndex] != E
  }

  /** The number of attempts that placed a ball. */
  function Placements(ds: seq<Draw>): (n: nat)
    requires AllWellDrawn(ds)
    ensures n <= |ds|
  {
    if ds == [] then 0
    else Placements(ds[..|ds| - 1]) + (if Places(ds[|ds| - 1]) then 1 else 0)
  }

  /**
   * The cell at p after the attempts ds, starting from the empty field:
   * the latest placing attempt that drew p wins.
   */
  function CellAfter(ds: seq<Draw>, p: Pos): (r: Cell)
    requires AllWellDrawn(ds)
    ensures r.x == p.x && r.y == p.y && r.occupant == null && !r.visited
  {
    if ds == [] then EmptyCell(p.x, p.y)
    else
      var d := ds[|ds| - 1];
      if Places(d) && d.row == p.x && d.column == p.y then Cell(CellTypes[d.typeIndex], null, p.x, p.y, false)
      else CellAfter(ds[..|ds| - 1], p)
  }

  /** The positions some placing attempt among ds drew. */
  function PlacedAt(ds: seq<Draw>): (r: set<Pos>)
    requires AllWellDrawn(ds)
  {
    if ds == [] then {}
    else
      var d := ds[|ds| - 1];
      PlacedAt(ds[..|ds| - 1]) + if Places(d) then {Pos(d.row, d.column)} else {}
  }

  /**
   * The cell at p keeps its own coordinates and no occupant, and it is
   * non-empty exactly when some placing attempt drew p.
   */
  lemma {:induction false} CellAfterShape(ds: seq<Draw>, p: Pos)
    requires AllWellDrawn(ds)
    ensures CellAfter(ds, p).x == p.x && CellAfter(ds, p).y == p.y
    ensures CellAfter(ds, p).occupant == null && !CellAfter(ds, p).visited
    ensures CellAfter(ds, p).cellType != E <==> p in PlacedAt(ds)
  {
    if ds != [] {
      CellAfterShape(ds[..|ds| - 1], p);
    }
  }

  /** Balls are placed only in rows 1..12 and columns 0..9. */
  lemma {:induction false} PlacedInRegion(ds: seq<Draw>)
    requires AllWellDrawn(ds)
    ensures forall p :: p in PlacedAt(ds) ==> 1 <= p.x <= ROWS_COUNT - 2 && 0 <= p.y <= COLUMNS_COUNT - 9
  {
    if ds != [] {
      PlacedInRegion(ds[..|ds| - 1]);
    }
  }

  /**
   * A placing attempt may land on an occupied slot, so the occupied
   * positions are at most, not exactly, the counted placements.
   */
  lemma {:induction false} PlacedAtMostCounted(ds: seq<Draw>)
    requires AllWellDrawn(ds)
    ensures |PlacedAt(ds)| <= Placements(ds)
  {
    if ds != [] {
      var front := ds[..|ds| - 1];
      PlacedAtMostCounted(front);
      var d := ds[|ds| - 1];
      if Places(d) {
        assert |PlacedAt(front) + {Pos(d.row, d.column)}| <= |PlacedAt(front)| + 1;
      } else {
        assert PlacedAt(ds) == PlacedAt(front);
      }
    }
  }

  /** Two placing attempts on one slot count twice but occupy one slot. */
  lemma OverwriteCountsTwice()
    ensures AllWellDrawn([Draw(1, 0, 0), Draw(1, 0, 1)])
    ensures Placements([Draw(1, 0, 0), Draw(1, 0, 1)]) == 2
    ensures PlacedAt([Draw(1, 0, 0), Draw(1, 0, 1)]) == {Pos(1, 0)}
    ensures CellAfter([Draw(1, 0, 0), Draw(1, 0, 1)], Pos(1, 0)).cellType == G
  {
    var ds := [Draw(1, 0, 0), Draw(1, 0, 1)];
    assert ds[..1] == [Draw(1, 0, 0)];
    assert ds[..1][..0] == [];
  }

  /** Counting placements over a longer prefix adds the new attempt's share. */
  lemma PlacementsStep(ds: seq<Draw>, k: nat)
    requires AllWellDrawn(ds) && k < |ds|
    ensures Placements(ds[..k + 1]) == Placements(ds[..k]) + (if Places(ds[k]) then 1 else 0)
  {
    assert ds[..k + 1][..k] == ds[..k];
  }

  /** One more attempt changes only the slot it drew, and only if it places. */
  lemma CellAfterStep(ds: seq<Draw>, k: nat, p: Pos)
    requires AllWellDrawn(ds) && k < |ds|
    ensures CellAfter(ds[..k + 1], p) ==
              if Places(ds[k]) && ds[k].row == p.x && ds[k].column == p.y
              then Cell(CellTypes[ds[k].typeIndex], null, p.x, p.y, false)
              else CellAfter(ds[..k], p)
  {
    assert ds[..k + 1][..k] == ds[..k];
  }
}
