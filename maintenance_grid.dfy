/** The grid of maintenance buttons: filled row by row, two buttons to a row. */
module MaintenanceGrid {

  /** The maintenance buttons, in the order they are attached. */
  const ButtonTexts: seq<string> := [
    "Clear Cache", "Clear Orphan file \U{26A0}\U{FE0F}", "Clear Swap file",
    "Kill All Process ", "Clear Session Management", "System Update"
  ]

  const Columns: nat := 2

  datatype Cell = Cell(column: nat, row: nat)

  /** The cell button `i` is attached at: column `i % Columns`, row `i // Columns`. */
  function CellOf(i: nat): (c: Cell)
    ensures c.column < Columns
    ensures c.row * Columns + c.column == i
  {
    Cell(i % Columns, i / Columns)
  }

  /** The position, in attachment order, of the button a cell receives. */
  function IndexOf(c: Cell): (i: nat) {
    c.row * Columns + c.column
  }

  /** Every cell of the two columns is the cell of exactly one position. */
  lemma CellOfIndexOf(c: Cell)
    requires c.column < Columns
    ensures CellOf(IndexOf(c)) == c
  {
  }

  /** Different buttons never share a cell. */
  lemma CellOfInjective(i: nat, j: nat)
    requires i != j
    ensures CellOf(i) != CellOf(j)
  {
  }

  /** Attaching every button in turn: the text each occupied cell shows. */
  function Layout(texts: seq<string>): (grid: map<Cell, string>)
    ensures forall i :: 0 <= i < |texts| ==> CellOf(i) in grid && grid[CellOf(i)] == texts[i]
    ensures forall c :: c in grid <==> c.column < Columns && IndexOf(c) < |texts|
  {
    var grid := map i | 0 <= i < |texts| :: CellOf(i) := texts[i];
    assert forall c: Cell :: c.column < Columns && IndexOf(c) < |texts| ==> c in grid by {
      forall c: Cell | c.column < Columns && IndexOf(c) < |texts| ensures c in grid {
        CellOfIndexOf(c);
      }
    }
    grid
  }

  /** The six maintenance buttons fill exactly the two columns of three rows. */
  lemma MaintenanceGridIsFull(c: Cell)
    ensures c in Layout(ButtonTexts) <==> c.column < Columns && c.row < 3
  {
  }
}
