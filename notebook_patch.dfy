/** The one-off notebook patch: in the loaded notebook, the source of the first
    code cell whose joined source mentions the old sentiment function is
    replaced by new code, and the notebook is written back only if that happened. */
module NotebookPatch {
  import opened Text

  /** The text that marks the cell to replace. */
  const Marker: string := "def get_sentiment(text):"

  /** A notebook cell: its `cell_type` and `source` keys, either of which may be missing. */
  datatype Cell = Cell(cellType: Option<string>, source: Option<seq<string>>)

  /** `cell.get('source', [])`. */
  function SourceLines(cell: Cell): seq<string>
  {
    match cell.source
    case Some(lines) => lines
    case None => []
  }

  /** The cell the patch looks for: a code cell whose joined source contains the marker. */
  predicate IsTarget(cell: Cell)
  {
    cell.cellType == Some("code") && Contains(Concat(SourceLines(cell)), Marker)
  }

  /** A cell at which the scan stops: the target, or a cell without `cell_type`,
      where `cell['cell_type']` raises and the script gives up. */
  predicate Stops(cell: Cell)
  {
    IsTarget(cell) || cell.cellType.None?
  }

  datatype Outcome = Replaced | NotFound | MissingCellType

  /** The notebook is written back exactly when a cell was replaced. */
  predicate WritesBack(outcome: Outcome)
  {
    outcome == Replaced
  }

  /** The first cell at which the scan stops, if any. */
  function FirstStop(cells: seq<Cell>): (r: Option<nat>)
    ensures r.Some? ==>
      r.value < |cells| && Stops(cells[r.value]) && forall j :: 0 <= j < r.value ==> !Stops(cells[j])
    ensures r.None? ==> forall j :: 0 <= j < |cells| ==> !Stops(cells[j])
  {
    if cells == [] then None
    else if Stops(cells[0]) then Some(0)
    else
      match FirstStop(cells[1..])
      case None => None
      case Some(i) => Some(i + 1)
  }

  datatype Patched = Patched(cells: seq<Cell>, outcome: Outcome)

  /** The specification of the patch on the list of cells. Only the first
      target changes, and its source becomes exactly the new code; the number
      of cells and every other cell stay as they were. */
  function Patch(cells: seq<Cell>, newCode: seq<string>): (p: Patched)
    ensures |p.cells| == |cells|
    ensures p.outcome != Replaced ==> p.cells == cells
    ensures p.outcome == Replaced ==>
      exists i :: 0 <= i < |cells| && IsTarget(cells[i]) &&
        (forall j :: 0 <= j < i ==> !IsTarget(cells[j])) &&
        p.cells[i] == cells[i].(source := Some(newCode)) &&
        forall j :: 0 <= j < |cells| && j != i ==> p.cells[j] == cells[j]
  {
    match FirstStop(cells)
    case None => Patched(cells, NotFound)
    case Some(i) =>
      if IsTarget(cells[i]) then Patched(cells[i := cells[i].(source := Some(newCode))], Replaced)
      else Patched(cells, MissingCellType)
  }

  class Notebook {
    var cells: seq<Cell>

    constructor (cells: seq<Cell>)
      ensures this.cells == cells
    {
      this.cells := cells;
    }

    /** The loop over `data['cells']`: assign `cell['source'] = new_code` in
        the first target cell, set `replaced` and stop. */
    method ReplaceSentimentCell(newCode: seq<string>) returns (outcome: Outcome)
      modifies this
      ensures Patch(old(cells), newCode) == Patched(cells, outcome)
    {
      var replaced := false;
      var i := 0;
      while i < |cells|
        invariant 0 <= i <= |cells|
        invariant cells == old(cells)
        invariant forall j :: 0 <= j < i ==> !Stops(cells[j])
      {
        var cell := cells[i];
        if cell.cellType.None? {
          return MissingCellType;
        }
        if cell.cellType == Some("code") {
          var sourceText := Concat(SourceLines(cell));
          if Contains(sourceText, Marker) {
            cells := cells[i := cell.(source := Some(newCode))];
            replaced := true;
            break;
          }
        }
        i := i + 1;
      }
      outcome := if replaced then Replaced else NotFound;
    }
  }

  /** Cells that are not code cells are never modified, even when they contain the marker. */
  lemma NonCodeCellsUntouched(cells: seq<Cell>, newCode: seq<string>, j: nat)
    requires j < |cells| && cells[j].cellType != Some("code")
    ensures |Patch(cells, newCode).cells| == |cells| && Patch(cells, newCode).cells[j] == cells[j]
  {
  }

  /** When every cell has a `cell_type`, the patch replaces a cell (and the
      notebook is written back) exactly when some code cell contains the marker. */
  lemma ReplacedIffSomeTarget(cells: seq<Cell>, newCode: seq<string>)
    requires forall j :: 0 <= j < |cells| ==> cells[j].cellType.Some?
    ensures WritesBack(Patch(cells, newCode).outcome) <==> exists i :: 0 <= i < |cells| && IsTarget(cells[i])
  {
    match FirstStop(cells)
    case None =>
    case Some(i) =>
      assert IsTarget(cells[i]);
  }

  /** A cell without a `source` key is treated as empty and never matches. */
  lemma MissingSourceNeverMatches(cell: Cell)
    requires cell.source.None?
    ensures !IsTarget(cell)
  {
    assert Concat(SourceLines(cell)) == [];
    assert !Contains([], Marker);
  }

  /** A cell without `cell_type` before any target aborts the scan: nothing is
      replaced and nothing is written, even if a later cell is a target. */
  lemma MissingCellTypeAborts(cells: seq<Cell>, newCode: seq<string>, k: nat)
    requires k < |cells| && cells[k].cellType.None?
    requires forall j :: 0 <= j < k ==> !IsTarget(cells[j])
    ensures Patch(cells, newCode) == Patched(cells, MissingCellType)
  {
    match FirstStop(cells)
    case None =>
    case Some(i) =>
      assert i <= k;
  }
}
