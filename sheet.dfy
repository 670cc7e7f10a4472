/**
 * The sheet: an owning map from positions to cells, the printable size,
 * and the operations that change them. A cell object is a record in an
 * arena (`cells`) addressed by its CellId; `data` says which cell each
 * occupied position owns. The methods of Cell that change the cell graph
 * (Set, Clear, ClearCache, IsCircular, GetValue) are methods of Sheet
 * taking the id of the cell they run on.
 */
module Sheets {
  import opened Wrappers
  import opened Structures
  import opened Formulas
  import opened Cells
  import opened Printing

  /** HashPair: the hash of a key (row, col) of the position map. */
  function HashPair(row: int, col: int): int {
    row * 16384 + col
  }

  /** Keys whose columns lie in the grid never share a hash. */
  lemma HashPairInjective(r1: int, c1: int, r2: int, c2: int)
    requires 0 <= c1 < MAX_COLS && 0 <= c2 < MAX_COLS
    ensures HashPair(r1, c1) == HashPair(r2, c2) <==> r1 == r2 && c1 == c2
  {
    if HashPair(r1, c1) == HashPair(r2, c2) {
      assert (r1 - r2) * 16384 == c2 - c1;
      assert r1 - r2 >= 1 ==> (r1 - r2) * 16384 >= 16384;
      assert r1 - r2 <= -1 ==> (r1 - r2) * 16384 <= -16384;
    }
  }

  // ---- the sheet invariant, on values -----------------------------------

  /** Every occupied position is valid and holds a cell of the arena; every id in use is below nextId. */
  ghost predicate Occupied(data: map<Position, CellId>, cells: map<CellId, Cell>, nextId: nat) {
    && (forall p :: p in data ==> p.IsValid() && data[p] in cells)
    && (forall c :: c in cells ==> c < nextId)
  }

  /**
   * Besides, each cell is owned by exactly one position: owner maps every
   * cell back to the position that holds it.
   */
  ghost predicate Owned(data: map<Position, CellId>, cells: map<CellId, Cell>, owner: map<CellId, Position>, nextId: nat) {
    && Occupied(data, cells, nextId)
    && (forall p :: p in data ==> data[p] in owner && owner[data[p]] == p)
    && (forall c :: c in cells ==> c in owner && owner[c] in data && data[owner[c]] == c)
  }

  /** down edges are the up edges reversed. */
  ghost predicate Symmetric(cells: map<CellId, Cell>) {
    && (forall c {:trigger cells[c].down} :: c in cells ==> cells[c].down <= cells.Keys)
    && (forall c, d {:trigger d in cells[c].down} {:trigger c in cells[d].up} ::
          c in cells && d in cells ==> (d in cells[c].down <==> c in cells[d].up))
  }

  /** The cells at the given positions. */
  function Targets(data: map<Position, CellId>, refs: seq<Position>): set<CellId> {
    set q | q in refs && q in data :: data[q]
  }

  /** Every formula's referenced positions are occupied and its down edges go to exactly those cells. */
  ghost predicate Linked(data: map<Position, CellId>, cells: map<CellId, Cell>) {
    forall c {:trigger cells[c].impl} :: c in cells && cells[c].impl.FormulaImpl? ==>
      && (forall q :: q in References(cells[c].impl) ==> q in data)
      && cells[c].down == Targets(data, References(cells[c].impl))
  }

  /** size covers every occupied position. */
  ghost predicate Fits(data: map<Position, CellId>, size: Size) {
    && 0 <= size.rows && 0 <= size.cols
    && (forall p :: p in data ==> p.row < size.rows && p.col < size.cols)
  }

  /** size is the smallest one covering every occupied position. */
  ghost predicate Tight(data: map<Position, CellId>, size: Size) {
    && Fits(data, size)
    && (size.rows == 0 || exists p :: p in data && p.row == size.rows - 1)
    && (size.cols == 0 || exists p :: p in data && p.col == size.cols - 1)
  }

  /** wr and wc occupy the last row and the last column of size. */
  ghost predicate Witnessed(data: map<Position, CellId>, size: Size, wr: Position, wc: Position) {
    && (size.rows == 0 || (wr in data && wr.row == size.rows - 1))
    && (size.cols == 0 || (wc in data && wc.col == size.cols - 1))
  }

  lemma WitnessedTight(data: map<Position, CellId>, size: Size, wr: Position, wc: Position)
    requires Fits(data, size) && Witnessed(data, size, wr, wc)
    ensures Tight(data, size)
  {
  }

  /** The occupied positions on the last row and in the last column of a tight printable area. */
  lemma TightWitnesses(data: map<Position, CellId>, size: Size) returns (wr: Position, wc: Position)
    requires Tight(data, size)
    ensures Fits(data, size) && Witnessed(data, size, wr, wc)
  {
    wr, wc := NONE, NONE;
    if size.rows != 0 {
      wr :| wr in data && wr.row == size.rows - 1;
    }
    if size.cols != 0 {
      wc :| wc in data && wc.col == size.cols - 1;
    }
  }

  /** The size IncreaseSize leaves. */
  function Grown(size: Size, pos: Position): Size {
    Size(if pos.row + 1 > size.rows then pos.row + 1 else size.rows,
         if pos.col + 1 > size.cols then pos.col + 1 else size.cols)
  }

  /** The sheet with every formula's cache dropped: what evaluation depends on. */
  function Skeleton(cells: map<CellId, Cell>): map<CellId, Cell> {
    map c | c in cells :: cells[c].(impl := ClearedCache(cells[c].impl))
  }

  /** Every down edge goes to a cell of lower rank. */
  ghost predicate Evaluable(cells: map<CellId, Cell>, rank: map<CellId, nat>) {
    && (forall c :: c in cells ==> c in rank)
    && (forall c, d {:trigger d in cells[c].down} :: c in cells && d in cells[c].down ==> d in cells && rank[d] < rank[c])
  }

  /** std::variant conversion at the end of FormulaImpl::GetValue. */
  function AsCellValue(v: FormulaValue): CellValue {
    match v
    case Number(x) => Num(x)
    case Failed(err) => Err(err)
  }

  /** The value of cell c: what Cell::GetValue computes, a formula re-evaluated from its referenced cells. */
  function ValueIn(e: Engine, data: map<Position, CellId>, cells: map<CellId, Cell>, ghost rank: map<CellId, nat>, c: CellId): CellValue
    requires Evaluable(cells, rank) && c in cells
    decreases rank[c], 1
  {
    match cells[c].impl
    case EmptyImpl => Str("")
    case TextImpl(t) => Str(TextValue(t))
    case FormulaImpl(_, _) => AsCellValue(FormulaResultIn(e, data, cells, rank, c))
  }

  /** Formula::Evaluate on cell c's formula, looking each mentioned position up in the sheet. */
  function FormulaResultIn(e: Engine, data: map<Position, CellId>, cells: map<CellId, Cell>, ghost rank: map<CellId, nat>, c: CellId): FormulaValue
    requires Evaluable(cells, rank) && c in cells && cells[c].impl.FormulaImpl?
    decreases rank[c], 0
  {
    var ast := cells[c].impl.ast;
    var args := map q | q in ast.cells ::
      Lookup(e, q, if q in data && data[q] in cells[c].down then Some(ValueIn(e, data, cells, rank, data[q])) else None);
    Evaluate(e, ast, args)
  }

  /** The outcome of looking up each position of ast in the sheet: what Formula::Evaluate reads. */
  function ArgumentsIn(e: Engine, data: map<Position, CellId>, cells: map<CellId, Cell>, ghost rank: map<CellId, nat>,
                       ast: Ast): map<Position, Execution>
    requires Evaluable(cells, rank) && forall p :: p in data ==> data[p] in cells
  {
    map q | q in ast.cells ::
      Lookup(e, q, if q.IsValid() && q in data then Some(ValueIn(e, data, cells, rank, data[q])) else None)
  }

  /**
   * A formula reads exactly the cells at the valid positions it mentions,
   * so following its down edges and looking its positions up agree.
   */
  lemma FormulaReadsArguments(e: Engine, data: map<Position, CellId>, cells: map<CellId, Cell>,
                              rank: map<CellId, nat>, c: CellId, n: nat)
    requires Evaluable(Skeleton(cells), rank) && Occupied(data, cells, n)
    requires c in cells && cells[c].impl.FormulaImpl?
    requires forall q :: q in References(cells[c].impl) ==> q in data
    requires cells[c].down == Targets(data, References(cells[c].impl))
    ensures FormulaResultIn(e, data, Skeleton(cells), rank, c)
      == Evaluate(e, cells[c].impl.ast, ArgumentsIn(e, data, Skeleton(cells), rank, cells[c].impl.ast))
  {
    var sk := Skeleton(cells);
    var ast := cells[c].impl.ast;
    assert sk[c].impl.ast == ast && sk[c].down == cells[c].down;
    var args := map q | q in ast.cells ::
      Lookup(e, q, if q in data && data[q] in sk[c].down then Some(ValueIn(e, data, sk, rank, data[q])) else None);
    forall q | q in ast.cells
      ensures args[q] == ArgumentsIn(e, data, sk, rank, ast)[q]
    {
      if q.IsValid() {
        assert q in References(cells[c].impl);
        assert data[q] in Targets(data, References(cells[c].impl));
      }
    }
    assert args == ArgumentsIn(e, data, sk, rank, ast);
  }

  /**
   * Some cell that impl references is c or lies above c: the cells whose
   * formulas read c, and so on upwards, are what IsCircular climbs through.
   */
  ghost predicate CircularIn(data: map<Position, CellId>, cells: map<CellId, Cell>, c: CellId, impl: Impl) {
    exists q :: q in References(impl) && q in data && Reaches(UpGraph(cells), c, data[q])
  }

  /** What Cell::Set on c reports for text: a parse error, a cycle, or success. */
  ghost function VerdictIn(e: Engine, data: map<Position, CellId>, cells: map<CellId, Cell>, c: CellId, text: string): Outcome<Exception> {
    match MakeImpl(e, text)
    case Failure(err) => Fail(err)
    case Success(impl) => if CircularIn(data, cells, c, impl) then Fail(CircularDependencyException) else Pass
  }

  /** The cell SetCell works on: the one at pos, or the one it creates there. */
  function Occupant(data: map<Position, CellId>, nextId: CellId, pos: Position): CellId {
    if pos in data then data[pos] else nextId
  }

  /** The arena once SetCell has made sure pos holds a cell. */
  function Opened(data: map<Position, CellId>, cells: map<CellId, Cell>, nextId: CellId, pos: Position): map<CellId, Cell> {
    if pos in data then cells else cells[nextId := Cell(EmptyImpl, {}, {})]
  }

  /** What Sheet::SetCell reports: refusal of an invalid position, else the verdict of Cell::Set on the cell at pos. */
  ghost function SetCellVerdict(e: Engine, data: map<Position, CellId>, cells: map<CellId, Cell>, pos: Position, text: string): Outcome<Exception> {
    if !pos.IsValid() then Fail(InvalidPositionException)
    else if pos in data then VerdictIn(e, data, cells, data[pos], text)
    else match MakeImpl(e, text)
      case Failure(err) => Fail(err)
      case Success(impl) => if pos in References(impl) then Fail(CircularDependencyException) else Pass
  }

  /**
   * A cell that nothing reads reaches only itself, so the content it is
   * given is circular exactly when it references the cell's own position.
   */
  lemma NewCellVerdict(e: Engine, data: map<Position, CellId>, cells: map<CellId, Cell>, owner: map<CellId, Position>, n: nat,
                       c: CellId, pos: Position, text: string)
    requires Owned(data, cells, owner, n) && pos in data && data[pos] == c && cells[c].up == {}
    ensures VerdictIn(e, data, cells, c, text) == (match MakeImpl(e, text)
      case Failure(err) => Fail(err)
      case Success(impl) => if pos in References(impl) then Fail(CircularDependencyException) else Pass)
  {
    if MakeImpl(e, text).Success? {
      var impl := MakeImpl(e, text).value;
      var g := UpGraph(cells);
      if pos in References(impl) {
        ReachesRefl(g, c);
      }
      if CircularIn(data, cells, c, impl) {
        var q :| q in References(impl) && q in data && Reaches(g, c, data[q]);
        ReachesFromLeaf(g, c, data[q]);
        assert owner[data[q]] == q;
      }
    }
  }

  /** The verdict of Cell::Set on the cell SetCell made sure of is SetCell's verdict. */
  lemma OccupiedVerdict(e: Engine, data0: map<Position, CellId>, cells0: map<CellId, Cell>,
                        n0: nat, data: map<Position, CellId>, cells: map<CellId, Cell>, owner: map<CellId, Position>, n: nat,
                        c: CellId, pos: Position, text: string)
    requires pos.IsValid() && Owned(data, cells, owner, n)
    requires c == Occupant(data0, n0, pos) && data == data0[pos := c] && cells == Opened(data0, cells0, n0, pos)
    requires pos !in data0 ==> c !in cells0
    ensures VerdictIn(e, data, cells, c, text) == SetCellVerdict(e, data0, cells0, pos, text)
  {
    if pos !in data0 {
      NewCellVerdict(e, data, cells, owner, n, c, pos, text);
    } else {
      assert data == data0;
    }
  }

  /** The arena once Cell::Set(""), run on c, has cut c off from the cells it read and dropped the caches above it. */
  ghost function Emptied(cells0: map<CellId, Cell>, c: CellId): map<CellId, Cell>
    requires c in cells0
  {
    var cells1 := Unwired(cells0, c);
    ClearedAbove(cells1, UpGraph(cells1), c)
  }

  /** The arena with c empty and reading nothing: c keeps its readers, and no cell lists c as one. */
  ghost function Unwired(cells0: map<CellId, Cell>, c: CellId): map<CellId, Cell>
    requires c in cells0
  {
    map d | d in cells0 :: if d == c then Cell(EmptyImpl, cells0[c].up, {}) else cells0[d].(up := cells0[d].up - {c})
  }

  /** What a corrected ClearCell leaves at an occupied position pos. */
  ghost predicate Cleared(data0: map<Position, CellId>, cells0: map<CellId, Cell>, pos: Position,
                          data: map<Position, CellId>, cells: map<CellId, Cell>)
  {
    && pos in data0 && data0[pos] in cells0
    && var c := data0[pos];
    && if cells0[c].up == {} then data == data0 - {pos} && cells == Emptied(cells0, c) - {c}
       else data == data0 && cells == Emptied(cells0, c)
  }

  /** Set("") adds no cell and no position: the arena is Emptied, and c keeps its readers. */
  lemma EmptiedIntro(data0: map<Position, CellId>, cells0: map<CellId, Cell>,
                     data: map<Position, CellId>, cells: map<CellId, Cell>, c: CellId)
    requires Installed(data0, cells0, data, cells, c, EmptyImpl)
    ensures data == data0 && cells == Emptied(cells0, c)
    ensures c in cells && cells[c] == Cell(EmptyImpl, cells0[c].up, {})
  {
    assert (set q | q in References(EmptyImpl)) == {};
    assert data.Keys == data0.Keys;
    EmptyRewiring(cells0, data, c);
  }

  /** Rewiring c to an empty cell, which reads nothing, leaves it Unwired. */
  lemma EmptyRewiring(cells0: map<CellId, Cell>, data: map<Position, CellId>, c: CellId)
    requires c in cells0
    ensures RewiredCells(cells0, data, c, EmptyImpl) == Unwired(cells0, c)
  {
    var t := Targets(data, References(EmptyImpl));
    assert t == {};
    var cells1, cells2 := RewiredCells(cells0, data, c, EmptyImpl), Unwired(cells0, c);
    assert cells1.Keys == cells2.Keys;
    forall d | d in cells1
      ensures cells1[d] == cells2[d]
    {
    }
  }

  /** Removing a cell with no edges, and its position, keeps the sheet invariant except for the size. */
  lemma EraseKeeps(data: map<Position, CellId>, cells: map<CellId, Cell>, owner: map<CellId, Position>, n: nat,
                   rank: map<CellId, nat>, bound: nat, pos: Position, c: CellId)
    requires Owned(data, cells, owner, n) && Acyclic(UpGraph(cells), rank, bound) && Symmetric(cells) && Linked(data, cells)
    requires pos in data && data[pos] == c && cells[c].up == {} && cells[c].down == {}
    ensures Owned(data - {pos}, cells - {c}, owner - {c}, n)
    ensures Acyclic(UpGraph(cells - {c}), rank, bound)
    ensures Symmetric(cells - {c})
    ensures Linked(data - {pos}, cells - {c})
  {
    EraseAcyclic(cells, rank, bound, c);
    EraseLinked(data, cells, owner, n, pos, c);
  }

  lemma EraseAcyclic(cells: map<CellId, Cell>, rank: map<CellId, nat>, bound: nat, c: CellId)
    requires Acyclic(UpGraph(cells), rank, bound) && Symmetric(cells) && c in cells && cells[c].up == {} && cells[c].down == {}
    ensures Acyclic(UpGraph(cells - {c}), rank, bound)
    ensures Symmetric(cells - {c})
  {
    var g, g' := UpGraph(cells), UpGraph(cells - {c});
    assert forall x :: x in g' ==> x in g && g'[x] == g[x] && c !in g[x];
    assert forall x :: x in cells && x != c ==> c !in cells[x].down;
  }

  lemma EraseLinked(data: map<Position, CellId>, cells: map<CellId, Cell>, owner: map<CellId, Position>, n: nat,
                    pos: Position, c: CellId)
    requires Owned(data, cells, owner, n) && Symmetric(cells) && Linked(data, cells)
    requires pos in data && data[pos] == c && cells[c].up == {}
    ensures Owned(data - {pos}, cells - {c}, owner - {c}, n)
    ensures Linked(data - {pos}, cells - {c})
  {
    var data', cells' := data - {pos}, cells - {c};
    forall x | x in cells' && cells'[x].impl.FormulaImpl?
      ensures forall q :: q in References(cells'[x].impl) ==> q in data'
      ensures cells'[x].down == Targets(data', References(cells'[x].impl))
    {
      var refs := References(cells[x].impl);
      if pos in refs {
        assert false;
      }
      TargetsExtend(data', data, refs);
    }
  }

  /**
   * Erasing a cell that a formula still reads leaves that formula's
   * reference unoccupied and its down edge pointing at no cell.
   */
  lemma ErasingReadCellBreaksSheet(data: map<Position, CellId>, cells: map<CellId, Cell>, pos: Position, d: CellId)
    requires Linked(data, cells) && pos in data && d in cells && d != data[pos]
    requires cells[d].impl.FormulaImpl? && pos in References(cells[d].impl)
    ensures !Linked(data - {pos}, cells - {data[pos]})
    ensures !Symmetric(cells - {data[pos]})
  {
    var cells' := cells - {data[pos]};
    assert cells'[d] == cells[d];
    assert data[pos] in cells[d].down;
  }

  /** A cell value as PrintValues writes it, with the corrected error printing. */
  function Render(e: Engine, v: CellValue): string {
    match v
    case Str(s) => s
    case Num(x) => e.show(x)
    case Err(err) => PrintedText(err)
  }

  /** The field PrintTexts writes for each occupied position: the cell's text. */
  function TextFields(data: map<Position, CellId>, cells: map<CellId, Cell>): map<Position, string>
    requires forall p :: p in data ==> data[p] in cells
  {
    map p | p in data :: GetText(cells[data[p]].impl)
  }

  /** The field PrintValues writes for each occupied position: the cell's value. */
  function ValueFields(e: Engine, data: map<Position, CellId>, cells: map<CellId, Cell>, ghost rank: map<CellId, nat>): map<Position, string>
    requires Evaluable(cells, rank) && forall p :: p in data ==> data[p] in cells
  {
    map p | p in data :: Render(e, ValueIn(e, data, cells, rank, data[p]))
  }

  /** The newline and tab counts of a printed grid; a grid with no columns has no rows. */
  lemma PrintedShape(fields: map<Position, string>, cols: int, rows: int)
    requires 0 <= cols && 0 <= rows && (cols == 0 ==> rows == 0)
    ensures FreeOf(fields, '\n') ==> Count(Grid(fields, cols, rows), '\n') == rows
    ensures FreeOf(fields, '\t') ==> Count(Grid(fields, cols, rows), '\t') == TabCount(rows, cols)
  {
    if cols > 0 {
      if FreeOf(fields, '\n') {
        GridLines(fields, cols, rows);
      }
      if FreeOf(fields, '\t') {
        GridTabs(fields, cols, rows);
      }
    }
  }

  // ---- the sheet ----------------------------------------------------------

  class Sheet {
    const engine: Engine
    var data: map<Position, CellId>
    var cells: map<CellId, Cell>
    var size: Size
    /** The id the next created cell gets. */
    var nextId: CellId
    /** The position holding each cell. */
    ghost var owner: map<CellId, Position>
    ghost var rank: map<CellId, nat>
    ghost var bound: nat

    ghost predicate Valid()
      reads this
    {
      && Owned(data, cells, owner, nextId)
      && bound >= 1
      && Acyclic(UpGraph(cells), rank, bound)
      && Symmetric(cells)
      && Linked(data, cells)
      && Tight(data, size)
    }

    /** CreateSheet: an empty sheet. */
    constructor(e: Engine)
      ensures Valid()
      ensures engine == e && data == map[] && cells == map[] && size == Size(0, 0)
    {
      engine := e;
      data := map[];
      cells := map[];
      size := Size(0, 0);
      nextId := 0;
      owner := map[];
      rank := map[];
      bound := 1;
    }

    function GetConcreteCell(pos: Position): (r: Result<Option<CellId>, Exception>)
      reads this
      ensures !pos.IsValid() <==> r == Failure(InvalidPositionException)
      ensures pos.IsValid() && pos !in data ==> r == Success(None)
      ensures pos.IsValid() && pos in data ==> r == Success(Some(data[pos]))
    {
      if !pos.IsValid() then Failure(InvalidPositionException)
      else if pos !in data then Success(None)
      else Success(Some(data[pos]))
    }

    /** The public accessor: the cell at pos, null when unoccupied, an exception for an invalid pos. */
    function GetCell(pos: Position): (r: Result<Option<CellId>, Exception>)
      reads this
      ensures !pos.IsValid() <==> r == Failure(InvalidPositionException)
      ensures pos.IsValid() && pos !in data ==> r == Success(None)
      ensures pos.IsValid() && pos in data ==> r == Success(Some(data[pos]))
    {
      GetConcreteCell(pos)
    }

    /** The printable size: the smallest one covering every occupied position. */
    function GetPrintableSize(): (s: Size)
      reads this
      requires Valid()
      ensures 0 <= s.rows && 0 <= s.cols
      ensures forall p :: p in data ==> p.row < s.rows && p.col < s.cols
      ensures s.rows == 0 || exists p :: p in data && p.row == s.rows - 1
      ensures s.cols == 0 || exists p :: p in data && p.col == s.cols - 1
      ensures s.rows == 0 <==> data == map[]
    {
      if data == map[] then size
      else
        var p :| p in data;
        assert p.row < size.rows;
        size
    }

    /** IsCircular's verdict on giving cell c the content impl. */
    ghost predicate Circular(c: CellId, impl: Impl)
      reads this
    {
      CircularIn(data, cells, c, impl)
    }

    function ValueOf(c: CellId): CellValue
      reads this
      requires Valid() && c in cells
    {
      ValidEvaluable();
      ValueIn(engine, data, Skeleton(cells), rank, c)
    }

    function FormulaResult(c: CellId): FormulaValue
      reads this
      requires Valid() && c in cells && cells[c].impl.FormulaImpl?
    {
      ValidEvaluable();
      FormulaResultIn(engine, data, Skeleton(cells), rank, c)
    }

    /** sheet.GetCell(pos) followed by GetValue on the cell found, if any. */
    function CellValueAt(pos: Position): Option<CellValue>
      reads this
      requires Valid()
    {
      if pos.IsValid() && pos in data then Some(ValueOf(data[pos])) else None
    }

    /** The text of each occupied position. */
    function Texts(): map<Position, string>
      reads this
      requires Valid()
    {
      TextFields(data, cells)
    }

    /** The printed value of each occupied position. */
    function Values(): map<Position, string>
      reads this
      requires Valid()
    {
      ValidEvaluable();
      ValueFields(engine, data, Skeleton(cells), rank)
    }

    /**
     * Sheet::PrintTexts: one line per row of the printable area, the texts
     * of its cells separated by tabs, an unoccupied position giving an
     * empty field. Unless a text holds a newline or a tab, that is exactly
     * size.rows newlines and size.cols - 1 tabs per row.
     */
    method PrintTexts() returns (out: string)
      requires Valid()
      ensures out == Grid(Texts(), size.cols, size.rows)
      ensures FreeOf(Texts(), '\n') ==> Count(out, '\n') == size.rows
      ensures FreeOf(Texts(), '\t') ==> Count(out, '\t') == TabCount(size.rows, size.cols)
    {
      ghost var fields := Texts();
      var rows, cols := size.rows, size.cols;
      out := "";
      var i := 0;
      while i < rows
        invariant 0 <= i <= rows
        invariant out == Grid(fields, cols, i)
      {
        var line := "";
        var j := 0;
        while j < cols
          invariant 0 <= j <= cols
          invariant line == Line(fields, i, cols, j)
        {
          var field := "";
          if Position(i, j) in data {
            field := GetText(cells[data[Position(i, j)]].impl);
          }
          line := line + field + Separator(j, cols);
          j := j + 1;
        }
        out := out + line;
        i := i + 1;
      }
      NoColumnsNoRows();
      PrintedShape(fields, cols, rows);
    }

    /**
     * Sheet::PrintValues: the same layout as PrintTexts with each cell's
     * value in place of its text. Evaluating fills empty formula caches,
     * which changes no value.
     */
    method PrintValues() returns (out: string)
      requires Valid()
      modifies this`cells
      ensures Valid() && Skeleton(cells) == old(Skeleton(cells))
      ensures out == Grid(old(Values()), size.cols, size.rows)
      ensures FreeOf(old(Values()), '\n') ==> Count(out, '\n') == size.rows
      ensures FreeOf(old(Values()), '\t') ==> Count(out, '\t') == TabCount(size.rows, size.cols)
    {
      ghost var fields := Values();
      NoColumnsNoRows();
      PrintableValues();
      out := PrintValueGrid(fields);
      PrintedShape(fields, size.cols, size.rows);
    }

    /** The grid PrintValues writes, evaluating on the arena as it stands. */
    method PrintValueGrid(ghost fields: map<Position, string>) returns (out: string)
      requires Printable(Skeleton(cells), fields)
      modifies this`cells
      ensures Valid() && Skeleton(cells) == old(Skeleton(cells))
      ensures out == Grid(fields, size.cols, size.rows)
    {
      ghost var sk := Skeleton(cells);
      out := PrintValueRows(fields, sk);
      ValidBySkeleton();
    }

    /** The rows PrintValues writes, one line each. */
    method PrintValueRows(ghost fields: map<Position, string>, ghost sk: map<CellId, Cell>) returns (out: string)
      requires Printable(sk, fields) && Skeleton(cells) == sk
      modifies this`cells
      ensures Skeleton(cells) == sk
      ensures out == Grid(fields, size.cols, size.rows)
    {
      out := "";
      var i := 0;
      while i < size.rows
        invariant 0 <= i <= size.rows
        invariant Skeleton(cells) == sk
        invariant out == Grid(fields, size.cols, i)
      {
        var line := PrintValueLine(i, fields, sk);
        out := out + line;
        i := i + 1;
      }
    }

    /** Row i as PrintValues writes it. */
    method PrintValueLine(i: int, ghost fields: map<Position, string>, ghost sk: map<CellId, Cell>) returns (line: string)
      requires Printable(sk, fields) && Skeleton(cells) == sk
      modifies this`cells
      ensures Skeleton(cells) == sk
      ensures line == Line(fields, i, size.cols, size.cols)
    {
      line := "";
      var j := 0;
      while j < size.cols
        invariant 0 <= j <= size.cols
        invariant Skeleton(cells) == sk
        invariant line == Line(fields, i, size.cols, j)
      {
        var field := PrintValueAt(Position(i, j), fields, sk);
        line := line + field + Separator(j, size.cols);
        j := j + 1;
      }
    }

    /** What PrintValues writes for position pos, before its separator: the value of its cell. */
    method PrintValueAt(pos: Position, ghost fields: map<Position, string>, ghost sk: map<CellId, Cell>) returns (field: string)
      requires Printable(sk, fields) && Skeleton(cells) == sk
      modifies this`cells
      ensures Skeleton(cells) == sk
      ensures field == Field(fields, pos.row, pos.col)
    {
      ValidBySkeleton();
      field := "";
      if pos in data {
        var v := GetValue(data[pos]);
        field := Render(engine, v);
      }
    }

    /** The sheet invariant, stated on a cache-free arena sk. */
    ghost predicate ValidOn(sk: map<CellId, Cell>)
      reads this`data, this`owner, this`nextId, this`rank, this`bound, this`size
    {
      && Owned(data, sk, owner, nextId)
      && bound >= 1
      && Acyclic(UpGraph(sk), rank, bound)
      && Symmetric(sk)
      && Linked(data, sk)
      && Tight(data, size)
    }

    /**
     * fields holds the printed value of each occupied position, evaluated on
     * the cache-free arena sk.
     */
    ghost predicate ValuesOn(sk: map<CellId, Cell>, fields: map<Position, string>)
      reads this`data, this`rank
    {
      && Evaluable(sk, rank)
      && (forall p :: p in data ==> data[p] in sk)
      && fields.Keys == data.Keys
      && forall p {:trigger ValueIn(engine, data, sk, rank, data[p])} :: p in data ==>
           fields[p] == Render(engine, ValueIn(engine, data, sk, rank, data[p]))
    }

    /** The sheet is valid on the cache-free arena sk and fields holds its values. */
    ghost predicate Printable(sk: map<CellId, Cell>, fields: map<Position, string>)
      reads this`data, this`owner, this`nextId, this`rank, this`bound, this`size
    {
      ValidOn(sk) && ValuesOn(sk, fields)
    }

    /** A valid sheet is printable with its current values. */
    lemma PrintableValues()
      requires Valid()
      ensures Printable(Skeleton(cells), Values())
    {
      SkeletonValid();
      ValuesOnSkeleton();
    }

    /** A valid sheet stays valid without its caches. */
    lemma SkeletonValid()
      requires Valid()
      ensures ValidOn(Skeleton(cells))
    {
      SameShapeKeeps(data, cells, Skeleton(cells));
    }

    /** The values of a valid sheet, evaluated without its caches. */
    lemma ValuesOnSkeleton()
      requires Valid()
      ensures ValuesOn(Skeleton(cells), Values())
    {
      ValidEvaluable();
    }

    /** Caches play no part in validity. */
    lemma ValidBySkeleton()
      requires ValidOn(Skeleton(cells))
      ensures Valid()
    {
      SameShapeKeeps(data, cells, Skeleton(cells));
    }

    /** A printable area with no columns has no rows either. */
    lemma NoColumnsNoRows()
      requires Valid()
      ensures 0 <= size.rows && 0 <= size.cols && (size.cols == 0 ==> size.rows == 0)
    {
      if size.rows != 0 {
        var p :| p in data && p.row == size.rows - 1;
      }
    }

    /** The outcome of the argument lookup for each position c's formula mentions. */
    function Arguments(c: CellId): map<Position, Execution>
      reads this
      requires Valid() && c in cells && cells[c].impl.FormulaImpl?
    {
      ValidEvaluable();
      ArgumentsIn(engine, data, Skeleton(cells), rank, cells[c].impl.ast)
    }

    /**
     * Cell::GetValue: the empty string, a text's value, or the formula
     * evaluated against the current values of the cells it references; no
     * cached value is ever read.
     */
    lemma ValueOfContent(c: CellId)
      requires Valid() && c in cells
      ensures cells[c].impl == EmptyImpl ==> ValueOf(c) == Str("")
      ensures cells[c].impl.TextImpl? ==> ValueOf(c) == Str(TextValue(cells[c].impl.text))
      ensures cells[c].impl.FormulaImpl? ==>
        ValueOf(c) == AsCellValue(FormulaResult(c)) &&
        FormulaResult(c) == Evaluate(engine, cells[c].impl.ast, Arguments(c))
    {
      if cells[c].impl.FormulaImpl? {
        ValidEvaluable();
        FormulaReadsArguments(engine, data, cells, rank, c, nextId);
      }
    }

    lemma ValidEvaluable()
      requires Valid()
      ensures Evaluable(Skeleton(cells), rank)
      ensures forall p :: p in data ==> data[p] in Skeleton(cells)
    {
      var sk := Skeleton(cells);
      forall c, d | c in sk && d in sk[c].down
        ensures d in sk && rank[d] < rank[c]
      {
        assert d in cells[c].down;
        assert c in UpGraph(cells)[d];
      }
    }

    method IncreaseSize(pos: Position)
      modifies this`size
      ensures size == Grown(old(size), pos)
    {
      size := Size(if pos.row + 1 > size.rows then pos.row + 1 else size.rows,
                   if pos.col + 1 > size.cols then pos.col + 1 else size.cols);
    }

    /** Recomputes the size from the occupied positions. */
    method DecreaseSize(pos: Position)
      modifies this`size
      ensures Tight(data, size)
    {
      var result := Size(0, 0);
      var todo := data.Keys;
      while todo != {}
        invariant todo <= data.Keys
        invariant 0 <= result.rows && 0 <= result.cols
        invariant forall p :: p in data && p !in todo ==> p.row < result.rows && p.col < result.cols
        invariant result.rows == 0 || exists p :: p in data && p !in todo && p.row == result.rows - 1
        invariant result.cols == 0 || exists p :: p in data && p !in todo && p.col == result.cols - 1
        decreases todo
      {
        var p :| p in todo;
        if p.row + 1 > result.rows {
          result := result.(rows := p.row + 1);
        }
        if p.col + 1 > result.cols {
          result := result.(cols := p.col + 1);
        }
        todo := todo - {p};
      }
      size := result;
    }

    /**
     * Whether giving cell c the content impl would close a cycle: a walk up
     * from c, with a stack and no visited set, looking for a cell impl reads.
     */
    method IsCircular(c: CellId, impl: Impl) returns (circular: bool)
      requires Valid() && c in cells
      ensures circular <==> Circular(c, impl)
    {
      var referenced: seq<Position> := [];
      if impl.FormulaImpl? {
        referenced := GetReferencedCells(impl.ast);
      }
      assert referenced == References(impl);
      if |referenced| == 0 {
        return false;
      }
      var referencedSet: set<Option<CellId>> := {};
      var i := 0;
      while i < |referenced|
        invariant 0 <= i <= |referenced|
        invariant forall x :: Some(x) in referencedSet <==>
          exists k :: 0 <= k < i && referenced[k] in data && data[referenced[k]] == x
      {
        var found := GetConcreteCell(referenced[i]);
        referencedSet := referencedSet + {found.value};
        i := i + 1;
      }
      circular := ClimbFinds(cells, rank, bound, c, referencedSet);
    }

    /** Forgets the cached value of c and of every cell that reaches c's value through formulas. */
    method ClearCache(c: CellId)
      requires c in cells && Acyclic(UpGraph(cells), rank, bound)
      modifies this`cells
      ensures cells == ClearedAbove(old(cells), old(UpGraph(cells)), c)
      ensures UpGraph(cells) == old(UpGraph(cells))
      decreases bound - rank[c], 1
    {
      ghost var g := UpGraph(cells);
      ghost var orig := cells;
      UpGraphIgnoresContent(cells, c, ClearedCache(cells[c].impl));
      cells := cells[c := cells[c].(impl := ClearedCache(cells[c].impl))];
      ClearStart(orig, g, c);
      var todo := cells[c].up;
      ghost var done: set<CellId> := {};
      while todo != {}
        invariant todo !! done && todo + done == g[c]
        invariant UpGraph(cells) == g
        invariant cells == ClearedBelow(orig, g, c, done)
        decreases todo
      {
        var u :| u in todo;
        ClearFrom(u, c, orig, g, done);
        todo := todo - {u};
        done := done + {u};
      }
      ClearEnd(orig, g, c, done);
    }

    /** One turn of ClearCache's loop over the cells directly above c. */
    method ClearFrom(u: CellId, ghost c: CellId, ghost orig: map<CellId, Cell>, ghost g: Graph, ghost done: set<CellId>)
      requires u in cells && Acyclic(UpGraph(cells), rank, bound)
      requires UpGraph(cells) == g && cells == ClearedBelow(orig, g, c, done)
      modifies this`cells
      ensures UpGraph(cells) == g
      ensures cells == ClearedBelow(orig, g, c, done + {u})
      decreases bound - rank[u], 2
    {
      ClearCache(u);
      ClearStep(orig, g, c, done, u);
    }

    /** Cell::GetValue: evaluates, and a formula that has no cached value keeps the one computed. */
    method GetValue(c: CellId) returns (v: CellValue)
      requires Valid() && c in cells
      modifies this`cells
      ensures Valid()
      ensures v == old(ValueOf(c))
      ensures old(cells[c].impl).FormulaImpl? && old(cells[c].impl).cache.None? ==>
        cells == old(cells)[c := old(cells[c]).(impl := old(cells[c].impl).(cache := Some(old(FormulaResult(c)))))]
      ensures !(old(cells[c].impl).FormulaImpl? && old(cells[c].impl).cache.None?) ==> cells == old(cells)
      ensures Skeleton(cells) == old(Skeleton(cells))
    {
      var impl := cells[c].impl;
      if impl.FormulaImpl? {
        var value := FormulaResult(c);
        if impl.cache.None? {
          var rec := cells[c].(impl := impl.(cache := Some(value)));
          SameShapeUpdate(cells, c, rec);
          SameShapeKeeps(data, cells, cells[c := rec]);
          UpGraphIgnoresContent(cells, c, rec.impl);
          cells := cells[c := rec];
        }
        v := AsCellValue(value);
      } else {
        v := ValueOf(c);
      }
    }

    /** Cell::Clear: the content becomes empty; edges and other cells stay as they are. */
    method Clear(c: CellId)
      requires Valid() && c in cells
      modifies this`cells
      ensures Valid()
      ensures cells == old(cells)[c := old(cells[c]).(impl := EmptyImpl)]
    {
      UpGraphIgnoresContent(cells, c, EmptyImpl);
      cells := cells[c := cells[c].(impl := EmptyImpl)];
    }

    /** make_unique<Cell>: a new empty cell with no edges, owned by pos. */
    method CreateCell(pos: Position) returns (id: CellId)
      requires pos !in data
      modifies this`data, this`cells, this`nextId, this`rank, this`owner
      ensures id == old(nextId) && nextId == id + 1
      ensures data == old(data)[pos := id]
      ensures cells == old(cells)[id := Cell(EmptyImpl, {}, {})]
      ensures rank == old(rank)[id := 0]
      ensures owner == old(owner)[id := pos]
    {
      id := nextId;
      nextId := nextId + 1;
      data := data[pos := id];
      cells := cells[id := Cell(EmptyImpl, {}, {})];
      rank := rank[id := 0];
      owner := owner[id := pos];
    }

    /**
     * Raises the ranks of everything c reaches, so that c ranks above every
     * cell impl references: none of them reaches c when impl is not circular.
     */
    ghost method Lift(c: CellId, impl: Impl)
      requires Valid() && c in cells && !Circular(c, impl)
      modifies this`rank, this`bound
      ensures Valid()
      ensures c in rank && rank[c] >= 1 && c !in cells[c].down
      ensures forall q :: q in References(impl) && q in data ==> data[q] in rank && rank[data[q]] < rank[c]
    {
      var g := UpGraph(cells);
      var lifted := map i | i in rank :: if Reaches(g, c, i) then rank[i] + bound else rank[i];
      LiftRanks(g, rank, bound, c, lifted);
      forall q | q in References(impl) && q in data
        ensures data[q] in lifted && lifted[data[q]] < lifted[c]
      {
        assert !Reaches(g, c, data[q]);
      }
      rank := lifted;
      bound := 2 * bound;
    }

    /** Removes c from the up set of every cell it reads, then forgets its down edges. */
    method Unlink(c: CellId)
      requires c in cells && Symmetric(cells) && c !in cells[c].down
      modifies this`cells
      ensures cells.Keys == old(cells).Keys
      ensures cells[c] == old(cells[c]).(down := {})
      ensures forall d :: d in cells && d != c ==> cells[d] == old(cells[d]).(up := old(cells[d]).up - {c})
    {
      var todo := cells[c].down;
      while todo != {}
        invariant todo <= old(cells[c].down)
        invariant cells.Keys == old(cells).Keys
        invariant cells[c] == old(cells[c])
        invariant forall d :: d in cells && d != c ==>
          cells[d] == (if d in todo then old(cells[d]) else old(cells[d]).(up := old(cells[d]).up - {c}))
        decreases todo
      {
        var d :| d in todo;
        cells := cells[d := cells[d].(up := cells[d].up - {c})];
        todo := todo - {d};
      }
      cells := cells[c := cells[c].(down := {})];
    }

    /**
     * sheet_.SetCell(pos, "") at an unoccupied position: a new empty cell
     * and a grown size (Set("") on a new cell changes nothing further).
     */
    method Vivify(pos: Position) returns (id: CellId)
      requires Owned(data, cells, owner, nextId) && Fits(data, size)
      requires pos.IsValid() && pos !in data
      modifies this`data, this`cells, this`nextId, this`rank, this`size, this`owner
      ensures Owned(data, cells, owner, nextId) && Fits(data, size)
      ensures id == old(nextId) && id !in old(cells)
      ensures nextId == old(nextId) + 1
      ensures data == old(data)[pos := id]
      ensures cells == old(cells)[id := Cell(EmptyImpl, {}, {})]
      ensures rank == old(rank)[id := 0]
      ensures size == Grown(old(size), pos)
    {
      ghost var data0 := data;
      id := CreateCell(pos);
      IncreaseSize(pos);
    }

    /** The cell at pos, created empty by sheet_.SetCell(pos, "") when pos is unoccupied. */
    method CellFor(pos: Position) returns (d: CellId)
      requires Owned(data, cells, owner, nextId) && Fits(data, size)
      requires pos.IsValid()
      modifies this`data, this`cells, this`nextId, this`rank, this`size, this`owner
      ensures Owned(data, cells, owner, nextId) && Fits(data, size)
      ensures size == Grown(old(size), pos)
      ensures pos in old(data) ==>
        data == old(data) && cells == old(cells) && rank == old(rank) && nextId == old(nextId) && d == data[pos]
      ensures pos !in old(data) ==>
        && d == old(nextId) && data == old(data)[pos := d] && cells == old(cells)[d := Cell(EmptyImpl, {}, {})]
        && rank == old(rank)[d := 0] && nextId == old(nextId) + 1
    {
      var found := GetConcreteCell(pos);
      if found.value.None? {
        d := Vivify(pos);
      } else {
        d := found.value.value;
      }
    }

    /**
     * Sheet::SetCell: an invalid position is refused; otherwise the cell at
     * pos, created empty (growing the size) if pos was unoccupied, is Set to
     * text. The new cell and the grown size stay even when Set fails.
     */
    method SetCell(pos: Position, text: string) returns (r: Outcome<Exception>)
      requires Valid()
      modifies this
      ensures Valid()
      ensures r == SetCellVerdict(engine, old(data), old(cells), pos, text)
      ensures !pos.IsValid() ==> data == old(data) && cells == old(cells) && size == old(size)
      ensures pos.IsValid() && r.Fail? ==>
        && data == old(data)[pos := Occupant(old(data), old(nextId), pos)]
        && cells == Opened(old(data), old(cells), old(nextId), pos)
        && size == Grown(old(size), pos)
      ensures r.Pass? ==>
        && MakeImpl(engine, text).Success?
        && Installed(old(data)[pos := Occupant(old(data), old(nextId), pos)], Opened(old(data), old(cells), old(nextId), pos),
                     data, cells, Occupant(old(data), old(nextId), pos), MakeImpl(engine, text).value)
    {
      if !pos.IsValid() {
        return Fail(InvalidPositionException);
      }
      ghost var data0, cells0, n0 := data, cells, nextId;
      var c := Occupy(pos);
      OccupiedVerdict(engine, data0, cells0, n0, data, cells, owner, nextId, c, pos, text);
      r := Set(c, text);
    }

    /**
     * Sheet::ClearCell, corrected: the cell at pos is Set to "" (which lets go
     * of the cells it read and drops the caches above it) and is erased only
     * when no formula reads it; a cell still read stays, empty. The size is
     * then recomputed.
     */
    method ClearCell(pos: Position) returns (r: Outcome<Exception>)
      requires Valid()
      modifies this
      ensures Valid()
      ensures r == if pos.IsValid() then Pass else Fail(InvalidPositionException)
      ensures !pos.IsValid() || pos !in old(data) ==> data == old(data) && cells == old(cells)
      ensures pos.IsValid() && pos in old(data) ==> Cleared(old(data), old(cells), pos, data, cells)
    {
      if !pos.IsValid() {
        return Fail(InvalidPositionException);
      }
      var found := GetConcreteCell(pos);
      if found.value.Some? {
        Empty(pos, found.value.value);
      }
      DecreaseSize(pos);
      return Pass;
    }

    /** Empties the cell c at pos, and erases it when nothing reads it. */
    method Empty(pos: Position, c: CellId)
      requires Valid() && pos in data && data[pos] == c
      modifies this
      ensures Owned(data, cells, owner, nextId) && bound >= 1 && Acyclic(UpGraph(cells), rank, bound)
      ensures Symmetric(cells) && Linked(data, cells) && Fits(data, size)
      ensures Cleared(old(data), old(cells), pos, data, cells)
    {
      SetEmpty(c);
      EraseUnread(pos, c);
    }

    /** Erases the emptied cell c at pos when no cell reads it; keeps it otherwise. */
    method EraseUnread(pos: Position, c: CellId)
      requires Valid() && pos in data && data[pos] == c && c in cells && cells[c].down == {}
      modifies this`data, this`cells, this`owner
      ensures Owned(data, cells, owner, nextId) && Acyclic(UpGraph(cells), rank, bound)
      ensures Symmetric(cells) && Linked(data, cells) && Fits(data, size)
      ensures if old(cells[c].up) == {} then data == old(data) - {pos} && cells == old(cells) - {c}
              else data == old(data) && cells == old(cells)
    {
      if cells[c].up == {} {
        Erase(pos, c);
      }
    }

    /** Cell::Set("") on c. */
    method SetEmpty(c: CellId)
      requires Valid() && c in cells
      modifies this
      ensures Valid()
      ensures data == old(data) && cells == Emptied(old(cells), c)
      ensures c in cells && cells[c] == Cell(EmptyImpl, old(cells[c].up), {})
    {
      ghost var data0, cells0 := data, cells;
      var outcome := Set(c, "");
      EmptiedIntro(data0, cells0, data, cells, c);
    }

    /** Destroys the cell c at pos, which no cell reads and which reads no cell. */
    method Erase(pos: Position, c: CellId)
      requires Owned(data, cells, owner, nextId) && Acyclic(UpGraph(cells), rank, bound)
      requires Symmetric(cells) && Linked(data, cells) && Fits(data, size)
      requires pos in data && data[pos] == c && cells[c].up == {} && cells[c].down == {}
      modifies this`data, this`cells, this`owner
      ensures data == old(data) - {pos} && cells == old(cells) - {c}
      ensures Owned(data, cells, owner, nextId) && Acyclic(UpGraph(cells), rank, bound)
      ensures Symmetric(cells) && Linked(data, cells) && Fits(data, size)
    {
      EraseKeeps(data, cells, owner, nextId, rank, bound, pos, c);
      data := data - {pos};
      cells := cells - {c};
      owner := owner - {c};
    }

    /**
     * Sheet::ClearCell as written: the cell at pos is destroyed even when
     * formulas still read it, so their down edges and the up sets of the
     * cells it read keep an id that no longer names a cell.
     */
    method ClearCellAsWritten(pos: Position) returns (r: Outcome<Exception>)
      requires Valid()
      modifies this`data, this`cells, this`owner, this`size
      ensures r == if pos.IsValid() then Pass else Fail(InvalidPositionException)
      ensures pos.IsValid() ==> data == old(data) - {pos}
      ensures pos.IsValid() && pos in old(data) ==> cells == old(cells) - {old(data)[pos]}
      ensures !pos.IsValid() || pos !in old(data) ==> data == old(data) && cells == old(cells)
      ensures Tight(data, size)
    {
      if !pos.IsValid() {
        return Fail(InvalidPositionException);
      }
      if pos in data {
        var c := data[pos];
        data := data - {pos};
        cells := cells - {c};
        owner := owner - {c};
      } else {
        assert data - {pos} == data;
      }
      DecreaseSize(pos);
      return Pass;
    }

    /** The cell at a valid position, created empty (and the size grown) when the position is unoccupied. */
    method Occupy(pos: Position) returns (c: CellId)
      requires Valid() && pos.IsValid()
      modifies this`data, this`cells, this`nextId, this`rank, this`size, this`owner
      ensures Valid()
      ensures c == Occupant(old(data), old(nextId), pos)
      ensures data == old(data)[pos := c] && cells == Opened(old(data), old(cells), old(nextId), pos)
      ensures size == Grown(old(size), pos)
      ensures pos !in old(data) ==> c !in old(cells)
    {
      ghost var data0, cells0, rank0, size0 := data, cells, rank, size;
      c := CellFor(pos);
      if pos in data0 {
        assert size == size0;
      } else {
        FreshCellKeeps(data0, cells0, rank0, bound, pos, c);
        GrownTight(data0, size0, data, pos);
      }
    }

    /**
     * Gives c a down edge to the cell at each referenced position, and
     * records c in that cell's up set, creating an empty cell where a
     * position is unoccupied.
     */
    method Link(c: CellId, refs: seq<Position>)
      requires Owned(data, cells, owner, nextId) && Tight(data, size)
      requires forall q :: q in refs ==> q.IsValid()
      requires c in cells && cells[c].down == {}
      requires forall x :: x in cells ==> x in rank
      requires forall q :: q in refs && q in data ==> rank[data[q]] < rank[c]
      requires rank[c] >= 1
      modifies this`data, this`cells, this`nextId, this`rank, this`size, this`owner
      ensures Owned(data, cells, owner, nextId) && Tight(data, size)
      ensures LinkState(old(data), old(cells), old(rank), old(nextId), c, data, cells, rank, nextId, refs)
    {
      ghost var data0, cells0, rank0, n0 := data, cells, rank, nextId;
      LinkStart(data, cells, rank, nextId, c);
      ghost var wr, wc := TightWitnesses(data, size);
      var i := 0;
      ghost var done: seq<Position> := [];
      while i < |refs|
        invariant 0 <= i <= |refs| && done == refs[..i]
        invariant Owned(data, cells, owner, nextId) && Fits(data, size) && Witnessed(data, size, wr, wc)
        invariant Occupied(data0, cells0, n0)
        invariant forall q :: q in refs && q in data0 ==> data0[q] in rank0 && rank0[data0[q]] < rank0[c]
        invariant LinkState(data0, cells0, rank0, n0, c, data, cells, rank, nextId, done)
      {
        var pos := refs[i];
        TakeNext(refs, i);
        ghost var done2 := refs[..i + 1];
        wr, wc := LinkNext(c, pos, data0, cells0, rank0, n0, done, done2, wr, wc);
        i := i + 1;
        done := done2;
      }
      assert refs[..i] == refs;
      assert done == refs;
      WitnessedTight(data, size, wr, wc);
    }

    /**
     * One turn of Cell::Set's linking loop: the cell at pos (created empty
     * if pos is unoccupied) gains c in its up set, and c gains it as a
     * down edge.
     */
    method LinkOne(c: CellId, pos: Position) returns (d: CellId)
      requires Owned(data, cells, owner, nextId) && Fits(data, size) && pos.IsValid() && c in cells
      modifies this`data, this`cells, this`nextId, this`rank, this`size, this`owner
      ensures Owned(data, cells, owner, nextId) && Fits(data, size)
      ensures size == Grown(old(size), pos)
      ensures pos in old(data) ==>
        && d == old(data)[pos] && data == old(data) && rank == old(rank) && nextId == old(nextId)
        && cells == WithEdge(old(cells), c, d)
      ensures pos !in old(data) ==>
        && d == old(nextId) && data == old(data)[pos := d] && rank == old(rank)[d := 0] && nextId == d + 1
        && cells == WithEdge(old(cells)[d := Cell(EmptyImpl, {}, {})], c, d)
    {
      d := CellFor(pos);
      var linked := WithEdge(cells, c, d);
      OwnedSameKeys(data, cells, linked, owner, nextId);
      cells := linked;
    }

    /** LinkOne, with what it adds to the wiring Link has done so far. */
    method LinkNext(c: CellId, pos: Position, ghost data0: map<Position, CellId>, ghost cells0: map<CellId, Cell>,
                    ghost rank0: map<CellId, nat>, ghost n0: nat, ghost done: seq<Position>, ghost done2: seq<Position>,
                    ghost wr: Position, ghost wc: Position)
      returns (ghost wr2: Position, ghost wc2: Position)
      requires Owned(data, cells, owner, nextId) && Fits(data, size) && Witnessed(data, size, wr, wc) && pos.IsValid()
      requires Occupied(data0, cells0, n0)
      requires LinkState(data0, cells0, rank0, n0, c, data, cells, rank, nextId, done)
      requires pos in data0 ==> data0[pos] in rank0 && rank0[data0[pos]] < rank0[c]
      requires done2 == done + [pos]
      modifies this`data, this`cells, this`nextId, this`rank, this`size, this`owner
      ensures Owned(data, cells, owner, nextId) && Fits(data, size) && Witnessed(data, size, wr2, wc2)
      ensures LinkState(data0, cells0, rank0, n0, c, data, cells, rank, nextId, done2)
    {
      ghost var data1, cells1, rank1, n1, size1 := data, cells, rank, nextId, size;
      var d := LinkOne(c, pos);
      wr2 := if pos.row + 1 > size1.rows then pos else wr;
      wc2 := if pos.col + 1 > size1.cols then pos else wc;
      if pos in data1 {
        LinkStepOld(data0, cells0, rank0, n0, c, done, pos, data1, cells1, rank1, n1, data, cells, rank, nextId, done2);
      } else {
        LinkStepNew(data0, cells0, rank0, n0, c, done, pos, data1, cells1, rank1, n1, data, cells, rank, nextId, done2);
      }
    }

    /** What Cell::Set on c reports for text. */
    ghost function Verdict(c: CellId, text: string): Outcome<Exception>
      reads this
    {
      VerdictIn(engine, data, cells, c, text)
    }

    /**
     * Cell::Set: installs the content for text unless parsing fails or the
     * formula would close a cycle; rewires the cell's edges, creating empty
     * cells at unoccupied referenced positions, and clears the caches of
     * the cell and of everything above it.
     */
    method Set(c: CellId, text: string) returns (r: Outcome<Exception>)
      requires Valid() && c in cells
      modifies this
      ensures Valid()
      ensures r == old(Verdict(c, text))
      ensures r.Fail? ==> data == old(data) && cells == old(cells) && size == old(size) && nextId == old(nextId)
      ensures r.Pass? ==> MakeImpl(engine, text).Success?
      ensures r.Pass? ==> Installed(old(data), old(cells), data, cells, c, MakeImpl(engine, text).value)
    {
      var made := MakeImpl(engine, text);
      if made.Failure? {
        return Fail(made.error);
      }
      var impl := made.value;
      if impl.FormulaImpl? {
        var circular := IsCircular(c, impl);
        if circular {
          return Fail(CircularDependencyException);
        }
      }
      Install(c, impl);
      return Pass;
    }

    /** c takes impl, with its edges rewired and the caches above it dropped. */
    method Install(c: CellId, impl: Impl)
      requires Valid() && c in cells && !Circular(c, impl)
      modifies this`data, this`cells, this`nextId, this`rank, this`size, this`owner, this`bound
      ensures Valid()
      ensures Installed(old(data), old(cells), data, cells, c, impl)
    {
      Rewire(c, impl);
      Refresh(c, impl, old(data), old(cells));
    }

    /** After the rewiring, the caches of c and of every cell above it are dropped. */
    method Refresh(c: CellId, ghost impl: Impl, ghost data0: map<Position, CellId>, ghost cells0: map<CellId, Cell>)
      requires Valid() && c in cells0
      requires Rewired(data0, cells0, data, cells, c, impl) && cells == RewiredCells(cells0, data, c, impl)
      modifies this`cells
      ensures Valid()
      ensures Installed(data0, cells0, data, cells, c, impl)
    {
      ghost var cells1 := cells;
      ClearAbove(c);
      InstalledIntro(data0, cells0, data, cells1, cells, c, impl);
    }

    /** ClearCache keeps the sheet invariant: caches play no part in it. */
    method ClearAbove(c: CellId)
      requires Valid() && c in cells
      modifies this`cells
      ensures Valid()
      ensures cells == ClearedAbove(old(cells), old(UpGraph(cells)), c)
    {
      ghost var cells2 := cells;
      ClearCache(c);
      SameShapeAfterClear(cells2, UpGraph(cells2), c);
      SameShapeValid(data, cells2, cells, owner, nextId, rank, bound);
    }

    /**
     * The rewiring half of Cell::Set: c takes impl, drops its old down
     * edges and the matching up edges, and gains an edge to the cell at
     * each position impl references, creating empty cells where needed.
     */
    method Rewire(c: CellId, impl: Impl)
      requires Valid() && c in cells && !Circular(c, impl)
      modifies this`data, this`cells, this`nextId, this`rank, this`size, this`owner, this`bound
      ensures Valid()
      ensures Rewired(old(data), old(cells), data, cells, c, impl)
      ensures cells == RewiredCells(old(cells), data, c, impl)
    {
      ghost var cells0 := cells;
      Detach(c, impl);
      Attach(c, impl, cells0);
    }

    /** The second half of Cell::Set: c gains an edge to the cell at every position impl references. */
    method Attach(c: CellId, impl: Impl, ghost cells0: map<CellId, Cell>)
      requires Owned(data, cells, owner, nextId) && Tight(data, size) && bound >= 1
      requires Occupied(data, cells0, nextId) && Symmetric(cells0) && Linked(data, cells0)
      requires Acyclic(UpGraph(cells0), rank, bound) && Detached(cells0, cells, c, impl)
      requires forall x :: x in cells ==> x in rank
      requires c in rank && rank[c] >= 1
      requires forall q :: q in References(impl) && q in data ==> data[q] in rank && rank[data[q]] < rank[c]
      modifies this`data, this`cells, this`nextId, this`rank, this`size, this`owner
      ensures Valid()
      ensures Rewired(old(data), cells0, data, cells, c, impl)
      ensures cells == RewiredCells(cells0, data, c, impl)
    {
      ghost var data0, rank1, n0 := data, rank, nextId;
      Connect(c, impl, cells0);
      RewiredValid(data0, cells0, data, cells, c, impl, rank1, rank, bound, n0, nextId);
      RewiredExact(data0, cells0, data, cells, c, impl, nextId);
    }

    /** Links c to the cells at the positions impl references, creating the missing ones. */
    method Connect(c: CellId, impl: Impl, ghost cells0: map<CellId, Cell>)
      requires Owned(data, cells, owner, nextId) && Tight(data, size)
      requires Occupied(data, cells0, nextId) && Detached(cells0, cells, c, impl)
      requires forall x :: x in cells ==> x in rank
      requires c in rank && rank[c] >= 1
      requires forall q :: q in References(impl) && q in data ==> data[q] in rank && rank[data[q]] < rank[c]
      modifies this`data, this`cells, this`nextId, this`rank, this`size, this`owner
      ensures Owned(data, cells, owner, nextId) && Tight(data, size)
      ensures Rewired(old(data), cells0, data, cells, c, impl)
      ensures forall i :: i in cells0 ==> i in rank && rank[i] == old(rank)[i]
      ensures forall d :: d in cells && d !in cells0 ==> d in rank && rank[d] == 0
    {
      ghost var data0, cells1, rank1, n0 := data, cells, rank, nextId;
      var refs: seq<Position> := [];
      if impl.FormulaImpl? {
        refs := GetReferencedCells(impl.ast);
      }
      assert refs == References(impl);
      Link(c, refs);
      LinkRewires(data0, cells0, cells1, rank1, n0, c, impl, refs, data, cells, rank, nextId);
    }

    /**
     * The first half of Cell::Set: c takes impl and is removed from the up
     * sets of the cells it read, which leaves c with no down edges. The
     * ranks are lifted so that c ranks above every cell impl will read.
     */
    method Detach(c: CellId, impl: Impl)
      requires Valid() && c in cells && !Circular(c, impl)
      modifies this`cells, this`rank, this`bound
      ensures Owned(data, cells, owner, nextId) && Tight(data, size)
      ensures Detached(old(cells), cells, c, impl)
      ensures bound >= 1 && Acyclic(UpGraph(old(cells)), rank, bound)
      ensures forall x :: x in cells ==> x in rank
      ensures c in rank && rank[c] >= 1
      ensures forall q :: q in References(impl) && q in data ==> data[q] in rank && rank[data[q]] < rank[c]
    {
      Lift(c, impl);
      Replace(c, impl);
    }

    /** c takes impl and lets go of the cells it read. */
    method Replace(c: CellId, impl: Impl)
      requires Owned(data, cells, owner, nextId) && c in cells && Symmetric(cells) && c !in cells[c].down
      modifies this`cells
      ensures Owned(data, cells, owner, nextId)
      ensures Detached(old(cells), cells, c, impl)
    {
      ghost var cells0 := cells;
      SymmetricIgnoresContent(cells, c, impl);
      cells := cells[c := cells[c].(impl := impl)];
      Unlink(c);
      OwnedSameKeys(data, cells0, cells, owner, nextId);
    }
  }

  /** cells1 is cells0 with c holding impl and cut off from the cells it read. */
  ghost predicate Detached(cells0: map<CellId, Cell>, cells1: map<CellId, Cell>, c: CellId, impl: Impl) {
    && c in cells0
    && cells1.Keys == cells0.Keys
    && cells1[c] == Cell(impl, cells0[c].up, {})
    && (forall d :: d in cells1 && d != c ==> cells1[d] == cells0[d].(up := cells0[d].up - {c}))
  }

  /**
   * Cell by cell, what a successful Cell::Set leaves: c holds impl; c's down
   * edges go to exactly the cells at impl's referenced positions, each of
   * which now has c among its up edges, and no other cell lists c any more;
   * unoccupied referenced positions got new empty cells; the caches of every
   * cell above c are cleared; nothing else changed.
   */
  lemma InstalledCells(data0: map<Position, CellId>, cells0: map<CellId, Cell>,
                       data: map<Position, CellId>, cells: map<CellId, Cell>, c: CellId, impl: Impl)
    requires Installed(data0, cells0, data, cells, c, impl)
    requires !impl.FormulaImpl? || impl.cache == None
    ensures c in cells0
    ensures data.Keys == data0.Keys + (set q | q in References(impl))
    ensures forall p :: p in data0 ==> data[p] == data0[p]
    ensures cells0.Keys <= cells.Keys
    ensures cells[c] == Cell(impl, cells0[c].up, Targets(data, References(impl)))
    ensures forall d :: d in cells0 && d != c ==>
      cells[d] == Cell(ClearedIfAbove(UpGraph(cells), c, d, cells0[d].impl),
                       cells0[d].up - {c} + (if d in Targets(data, References(impl)) then {c} else {}), cells0[d].down)
    ensures forall d :: d in cells && d !in cells0 ==>
      cells[d] == Cell(EmptyImpl, {c}, {}) && d in Targets(data, References(impl))
  {
    var cells1 := RewiredCells(cells0, data, c, impl);
    SameShapeAfterClear(cells1, UpGraph(cells1), c);
    SameShapeKeeps(data, cells1, cells);
  }

  /** Link's progress on the position map: the positions in done are occupied, older ones kept, new ones hold new ids. */
  ghost predicate DataUpTo(data0: map<Position, CellId>, n0: nat, data: map<Position, CellId>, done: seq<Position>) {
    && (forall p :: p in data && p !in data0 ==> n0 <= data[p])
    && (forall q :: q in done ==> q in data)
    && data.Keys == data0.Keys + (set q | q in done)
    && (forall p :: p in data0 ==> data[p] == data0[p])
  }

  /** The arena with the given keys: the cells of base, and a new empty cell for every other key. */
  function Padded(base: map<CellId, Cell>, keys: set<CellId>): map<CellId, Cell> {
    map x | x in keys :: if x in base then base[x] else Cell(EmptyImpl, {}, {})
  }

  /** plain with down edges from c to every cell of t, and c in the up set of each of them. */
  function Wire(plain: map<CellId, Cell>, c: CellId, t: set<CellId>): map<CellId, Cell>
    requires c in plain
  {
    map x | x in plain ::
      if x == c then plain[c].(down := plain[c].down + t)
      else if x in t then plain[x].(up := plain[x].up + {c})
      else plain[x]
  }

  lemma WireNothing(cells: map<CellId, Cell>, c: CellId)
    requires c in cells
    ensures Padded(cells, cells.Keys) == cells
    ensures Wire(cells, c, {}) == cells
  {
    assert cells[c].down + {} == cells[c].down;
    assert Padded(cells, cells.Keys).Keys == cells.Keys;
    assert Wire(cells, c, {}).Keys == cells.Keys;
  }

  /** A new cell outside t can be added before or after wiring. */
  lemma WireFresh(plain: map<CellId, Cell>, c: CellId, t: set<CellId>, d: CellId)
    requires c in plain && d !in plain && d !in t
    ensures Wire(plain, c, t)[d := Cell(EmptyImpl, {}, {})] == Wire(plain[d := Cell(EmptyImpl, {}, {})], c, t)
  {
  }

  lemma PaddedFresh(base: map<CellId, Cell>, keys: set<CellId>, d: CellId)
    requires d !in keys && d !in base
    ensures Padded(base, keys)[d := Cell(EmptyImpl, {}, {})] == Padded(base, keys + {d})
  {
  }

  /** cells with a down edge from c to d and c in d's up set. */
  function WithEdge(cells: map<CellId, Cell>, c: CellId, d: CellId): map<CellId, Cell>
    requires c in cells && d in cells
  {
    cells[c := cells[c].(down := cells[c].down + {d})][d := cells[d].(up := cells[d].up + {c})]
  }

  /** Adding the edge between c and d to a wired arena wires one more cell. */
  lemma WireAdd(plain: map<CellId, Cell>, c: CellId, t: set<CellId>, d: CellId)
    requires c in plain && d in plain && d != c && c !in t
    ensures WithEdge(Wire(plain, c, t), c, d) == Wire(plain, c, t + {d})
  {
    var w := Wire(plain, c, t);
    var w2 := WithEdge(w, c, d);
    assert w2.Keys == Wire(plain, c, t + {d}).Keys;
    forall x | x in w2
      ensures w2[x] == Wire(plain, c, t + {d})[x]
    {
    }
  }

  /**
   * What Link has done after the positions in done: c's down edges and
   * the up edges into c match the cells at those positions, new cells
   * are empty with rank 0, and every target ranks below c.
   */
  ghost predicate LinkState(data0: map<Position, CellId>, cells0: map<CellId, Cell>, rank0: map<CellId, nat>, n0: nat,
                            c: CellId, data: map<Position, CellId>, cells: map<CellId, Cell>, rank: map<CellId, nat>,
                            nextId: nat, done: seq<Position>) {
    && n0 <= nextId && c < n0 && c in cells0 && c in rank0 && rank0[c] >= 1
    && DataUpTo(data0, n0, data, done)
    && cells0.Keys <= cells.Keys
    && cells == Wire(Padded(cells0, cells.Keys), c, Targets(data, done))
    && (forall x :: x in cells && x !in cells0 ==> x in Targets(data, done))
    && LinkRanks(cells0, rank0, n0, c, cells, rank, Targets(data, done))
  }

  /** Link's progress on the ranks: old cells keep theirs, new ones have 0, and every target ranks below c. */
  ghost predicate LinkRanks(cells0: map<CellId, Cell>, rank0: map<CellId, nat>, n0: nat, c: CellId,
                            cells: map<CellId, Cell>, rank: map<CellId, nat>, t: set<CellId>) {
    && c in rank0
    && (forall x :: x in t ==> x in rank && rank[x] < rank0[c])
    && (forall x :: x in cells0 ==> x in rank && x in rank0 && rank[x] == rank0[x])
    && (forall x :: x in cells && x !in cells0 ==> x in rank && rank[x] == 0 && n0 <= x)
  }

  /** A new cell of rank 0 keeps LinkRanks. */
  lemma LinkRanksNew(cells0: map<CellId, Cell>, rank0: map<CellId, nat>, n0: nat, c: CellId,
                     cells: map<CellId, Cell>, rank: map<CellId, nat>, t: set<CellId>, n: CellId)
    requires LinkRanks(cells0, rank0, n0, c, cells, rank, t) && rank0[c] >= 1
    requires n !in cells && cells0.Keys <= cells.Keys && n0 <= n
    ensures LinkRanks(cells0, rank0, n0, c, cells[n := Cell(EmptyImpl, {}, {})], rank[n := 0], t + {n})
  {
  }

  lemma LinkStart(data: map<Position, CellId>, cells: map<CellId, Cell>, rank: map<CellId, nat>, n: nat, c: CellId)
    requires Occupied(data, cells, n) && c in cells
    requires forall x :: x in cells ==> x in rank
    requires rank[c] >= 1
    ensures LinkState(data, cells, rank, n, c, data, cells, rank, n, [])
  {
    WireNothing(cells, c);
    assert (set q: Position | q in []) == {};
    assert Targets(data, []) == {};
  }

  lemma TakeNext<T>(s: seq<T>, i: nat)
    requires i < |s|
    ensures s[..i + 1] == s[..i] + [s[i]]
  {
  }

  lemma OwnedSameKeys(data: map<Position, CellId>, cells: map<CellId, Cell>, cells2: map<CellId, Cell>,
                       owner: map<CellId, Position>, n: nat)
    requires Owned(data, cells, owner, n) && cells2.Keys == cells.Keys
    ensures Owned(data, cells2, owner, n)
  {
  }

  /** One turn of Link's loop keeps LinkState. */
  lemma LinkStepOld(data0: map<Position, CellId>, cells0: map<CellId, Cell>, rank0: map<CellId, nat>, n0: nat,
                    c: CellId, done: seq<Position>, pos: Position,
                    data: map<Position, CellId>, cells: map<CellId, Cell>, rank: map<CellId, nat>, n: nat,
                    data2: map<Position, CellId>, cells2: map<CellId, Cell>,
                    rank2: map<CellId, nat>, n2: nat, done2: seq<Position>)
    requires LinkState(data0, cells0, rank0, n0, c, data, cells, rank, n, done)
    requires Occupied(data0, cells0, n0) && Occupied(data, cells, n)
    requires pos in data0 ==> data0[pos] in rank0 && rank0[data0[pos]] < rank0[c]
    requires pos in data && data[pos] in cells && c in cells
    requires cells2 == WithEdge(cells, c, data[pos])
    requires data2 == data && rank2 == rank && n2 == n && done2 == done + [pos]
    ensures LinkState(data0, cells0, rank0, n0, c, data2, cells2, rank2, n2, done2)
  {
    var d := data[pos];
    var t := Targets(data, done);
    LinkStepData(data0, n0, done, pos, data, data, d);
    assert d != c && d in rank && rank[d] < rank0[c] by {
      if pos !in data0 {
        assert n0 <= d;
      }
    }
    WireAdd(Padded(cells0, cells.Keys), c, t, d);
  }

  lemma LinkStepNew(data0: map<Position, CellId>, cells0: map<CellId, Cell>, rank0: map<CellId, nat>, n0: nat,
                    c: CellId, done: seq<Position>, pos: Position,
                    data: map<Position, CellId>, cells: map<CellId, Cell>, rank: map<CellId, nat>, n: nat,
                    data2: map<Position, CellId>, cells2: map<CellId, Cell>,
                    rank2: map<CellId, nat>, n2: nat, done2: seq<Position>)
    requires LinkState(data0, cells0, rank0, n0, c, data, cells, rank, n, done)
    requires Occupied(data, cells, n)
    requires pos !in data && c in cells
    requires cells2 == WithEdge(cells[n := Cell(EmptyImpl, {}, {})], c, n)
    requires data2 == data[pos := n] && rank2 == rank[n := 0] && n2 == n + 1 && done2 == done + [pos]
    ensures LinkState(data0, cells0, rank0, n0, c, data2, cells2, rank2, n2, done2)
  {
    var t := Targets(data, done);
    LinkStepData(data0, n0, done, pos, data, data2, n);
    WireNew(cells0, cells, c, t, n);
    LinkRanksNew(cells0, rank0, n0, c, cells, rank, t, n);
  }

  /** Wiring a new empty cell n into a wired arena. */
  lemma WireNew(cells0: map<CellId, Cell>, cells: map<CellId, Cell>, c: CellId, t: set<CellId>, n: CellId)
    requires c in cells0 && cells0.Keys <= cells.Keys && n !in cells && c != n && c !in t && t <= cells.Keys
    requires cells == Wire(Padded(cells0, cells.Keys), c, t)
    ensures var cells1 := cells[n := Cell(EmptyImpl, {}, {})];
      WithEdge(cells1, c, n) == Wire(Padded(cells0, cells1.Keys), c, t + {n})
  {
    var cells1 := cells[n := Cell(EmptyImpl, {}, {})];
    WireFresh(Padded(cells0, cells.Keys), c, t, n);
    PaddedFresh(cells0, cells.Keys, n);
    WireAdd(Padded(cells0, cells1.Keys), c, t, n);
  }

  /** Looking up or creating the cell at pos extends the occupied positions and the targets by it. */
  lemma LinkStepData(data0: map<Position, CellId>, n0: nat, done: seq<Position>, pos: Position,
                     data: map<Position, CellId>, data1: map<Position, CellId>, d: CellId)
    requires DataUpTo(data0, n0, data, done)
    requires pos in data ==> data1 == data && d == data[pos]
    requires pos !in data ==> data1 == data[pos := d] && n0 <= d
    ensures pos in data1 && data1[pos] == d
    ensures Targets(data1, done + [pos]) == Targets(data, done) + {d}
    ensures DataUpTo(data0, n0, data1, done + [pos])
  {
    TargetsExtend(data, data1, done);
    TargetsAppend(data1, done, pos);
    assert (set q | q in done + [pos]) == (set q | q in done) + {pos};
  }

  /** The edges Cell::Set leaves before it clears caches: c holds impl and reads exactly the cells at impl's references. */
  ghost predicate Rewired(data0: map<Position, CellId>, cells0: map<CellId, Cell>,
                          data: map<Position, CellId>, cells: map<CellId, Cell>, c: CellId, impl: Impl)
  {
    var t := Targets(data, References(impl));
    && c in cells0
    && data.Keys == data0.Keys + (set q | q in References(impl))
    && (forall p :: p in data0 ==> data[p] == data0[p])
    && (forall p :: p in data && p !in data0 ==> data[p] !in cells0)
    && cells0.Keys <= cells.Keys
    && cells[c] == Cell(impl, cells0[c].up, t)
    && (forall d :: d in cells0 && d != c ==>
          cells[d] == cells0[d].(up := cells0[d].up - {c} + (if d in t then {c} else {})))
    && (forall d :: d in cells && d !in cells0 ==> cells[d] == Cell(EmptyImpl, {c}, {}) && d in t)
  }

  /** The arena a rewiring leaves: the cells of cells0 and a new empty cell at each target that was not one of them. */
  ghost function RewiredCells(cells0: map<CellId, Cell>, data: map<Position, CellId>, c: CellId, impl: Impl): map<CellId, Cell>
    requires c in cells0
  {
    var t := Targets(data, References(impl));
    map d | d in cells0.Keys + t ::
      if d == c then Cell(impl, cells0[c].up, t)
      else if d in cells0 then cells0[d].(up := cells0[d].up - {c} + (if d in t then {c} else {}))
      else Cell(EmptyImpl, {c}, {})
  }

  /** The state a successful Cell::Set leaves: the rewiring, then the caches above c dropped. */
  lemma InstalledIntro(data0: map<Position, CellId>, cells0: map<CellId, Cell>, data: map<Position, CellId>,
                       cells1: map<CellId, Cell>, cells: map<CellId, Cell>, c: CellId, impl: Impl)
    requires c in cells0 && Rewired(data0, cells0, data, cells1, c, impl) && cells1 == RewiredCells(cells0, data, c, impl)
    requires cells == ClearedAbove(cells1, UpGraph(cells1), c)
    ensures Installed(data0, cells0, data, cells, c, impl)
  {
  }

  ghost predicate Installed(data0: map<Position, CellId>, cells0: map<CellId, Cell>,
                            data: map<Position, CellId>, cells: map<CellId, Cell>, c: CellId, impl: Impl)
  {
    && c in cells0
    && var cells1 := RewiredCells(cells0, data, c, impl);
    && Rewired(data0, cells0, data, cells1, c, impl)
    && cells == ClearedAbove(cells1, UpGraph(cells1), c)
  }

  /** Once every target is a cell, the rewiring determines the new arena. */
  lemma RewiredExact(data0: map<Position, CellId>, cells0: map<CellId, Cell>,
                     data: map<Position, CellId>, cells: map<CellId, Cell>, c: CellId, impl: Impl, n: nat)
    requires Rewired(data0, cells0, data, cells, c, impl) && Occupied(data, cells, n)
    ensures cells == RewiredCells(cells0, data, c, impl)
  {
    var t := Targets(data, References(impl));
    assert cells.Keys == cells0.Keys + t;
  }

  /** What Link leaves after Unlink is the rewiring Cell::Set promises. */
  lemma LinkRewires(data0: map<Position, CellId>, cells0: map<CellId, Cell>, cells1: map<CellId, Cell>,
                    rank1: map<CellId, nat>, n0: nat, c: CellId, impl: Impl, refs: seq<Position>,
                    data: map<Position, CellId>, cells: map<CellId, Cell>, rank: map<CellId, nat>, n: nat)
    requires Occupied(data0, cells0, n0) && c in cells0
    requires Detached(cells0, cells1, c, impl)
    requires refs == References(impl) && LinkState(data0, cells1, rank1, n0, c, data, cells, rank, n, refs)
    ensures Rewired(data0, cells0, data, cells, c, impl)
    ensures forall i :: i in cells0 ==> i in rank && rank[i] == rank1[i]
    ensures forall d :: d in cells && d !in cells0 ==> d in rank && rank[d] == 0
  {
    var t := Targets(data, References(impl));
    var plain := Padded(cells1, cells.Keys);
    forall d | d in cells && d !in cells0
      ensures cells[d] == Cell(EmptyImpl, {c}, {})
    {
      assert plain[d] == Cell(EmptyImpl, {}, {});
    }
  }

  /** The cells c reads after rewiring are old cells of lower rank or new cells of rank 0. */
  lemma RewiredTargets(data0: map<Position, CellId>, cells0: map<CellId, Cell>,
                       data: map<Position, CellId>, cells: map<CellId, Cell>, c: CellId, impl: Impl,
                       rank: map<CellId, nat>, n0: nat, n: nat)
    requires Occupied(data0, cells0, n0) && Occupied(data, cells, n)
    requires Rewired(data0, cells0, data, cells, c, impl)
    requires forall d :: d in cells && d !in cells0 ==> d in rank && rank[d] == 0
    requires c in rank && rank[c] >= 1
    requires forall q :: q in References(impl) && q in data0 ==> data0[q] in rank && rank[data0[q]] < rank[c]
    ensures forall x :: x in Targets(data, References(impl)) ==> x in cells && x in rank && rank[x] < rank[c]
  {
    forall x | x in Targets(data, References(impl))
      ensures x in cells && x in rank && rank[x] < rank[c]
    {
      var q :| q in References(impl) && q in data && data[q] == x;
      if q in data0 {
        assert data0[q] == x;
      }
    }
  }

  /** Rewiring c to cells of lower rank keeps the up graph ranked. */
  lemma RewiredAcyclic(cells0: map<CellId, Cell>, cells: map<CellId, Cell>, c: CellId, t: set<CellId>,
                       rank0: map<CellId, nat>, rank: map<CellId, nat>, bound: nat)
    requires Acyclic(UpGraph(cells0), rank0, bound) && bound >= 1
    requires c in cells0 && cells0.Keys <= cells.Keys && t <= cells.Keys
    requires cells[c].up == cells0[c].up
    requires forall d :: d in cells0 && d != c ==> cells[d].up == cells0[d].up - {c} + (if d in t then {c} else {})
    requires forall d :: d in cells && d !in cells0 ==> cells[d].up == {c} && d in t
    requires forall i :: i in cells0 ==> i in rank && rank[i] == rank0[i]
    requires forall d :: d in cells && d !in cells0 ==> d in rank && rank[d] == 0
    requires forall x :: x in t ==> x in rank && rank[x] < rank[c]
    ensures Acyclic(UpGraph(cells), rank, bound)
  {
    var g := UpGraph(cells);
    var g0 := UpGraph(cells0);
    assert g.Keys == cells.Keys;
    forall d | d in g
      ensures g[d] <= g.Keys
    {
      if d in cells0 {
        assert g0[d] <= g0.Keys;
      }
    }
    forall d, u | d in g && u in g[d]
      ensures rank[d] < rank[u]
    {
      if d in cells0 && u != c {
        assert u in g0[d];
      } else if d in cells0 && d != c {
        assert d in t;
      }
    }
  }

  /** Rewiring c keeps down edges the reverse of up edges. */
  lemma RewiredSymmetric(cells0: map<CellId, Cell>, cells: map<CellId, Cell>, c: CellId, t: set<CellId>)
    requires Symmetric(cells0) && Closed(UpGraph(cells0))
    requires c in cells0 && cells0.Keys <= cells.Keys && t <= cells.Keys && c !in t && c !in cells0[c].up
    requires cells[c].up == cells0[c].up && cells[c].down == t
    requires forall d :: d in cells0 && d != c ==>
      cells[d].up == cells0[d].up - {c} + (if d in t then {c} else {}) && cells[d].down == cells0[d].down
    requires forall d :: d in cells && d !in cells0 ==> cells[d].up == {c} && cells[d].down == {} && d in t
    ensures Symmetric(cells)
  {
    forall x, d | x in cells && d in cells
      ensures d in cells[x].down <==> x in cells[d].up
    {
      if x in cells0 && x != c {
        if d in cells0 {
          assert d in cells0[x].down <==> x in cells0[d].up;
        } else {
          assert cells0[x].down <= cells0.Keys;
        }
      } else if x !in cells0 {
        if d in cells0 {
          assert UpGraph(cells0)[d] <= cells0.Keys;
        }
      }
    }
  }

  /** After rewiring, every formula's references are occupied and its down edges go to their cells. */
  lemma RewiredLinked(data0: map<Position, CellId>, cells0: map<CellId, Cell>,
                      data: map<Position, CellId>, cells: map<CellId, Cell>, c: CellId, impl: Impl)
    requires Linked(data0, cells0)
    requires Rewired(data0, cells0, data, cells, c, impl)
    ensures Linked(data, cells)
  {
    forall x | x in cells && cells[x].impl.FormulaImpl?
      ensures forall q :: q in References(cells[x].impl) ==> q in data
      ensures cells[x].down == Targets(data, References(cells[x].impl))
    {
      if x != c {
        TargetsExtend(data0, data, References(cells[x].impl));
      } else {
        forall q | q in References(impl)
          ensures q in data
        {
          assert q in (set q | q in References(impl));
        }
      }
    }
  }

  /** Rewiring c to cells of lower rank keeps the graph ranked, symmetric and linked. */
  lemma RewiredValid(data0: map<Position, CellId>, cells0: map<CellId, Cell>,
                     data: map<Position, CellId>, cells: map<CellId, Cell>, c: CellId, impl: Impl,
                     rank0: map<CellId, nat>, rank: map<CellId, nat>, bound: nat, n0: nat, n: nat)
    requires Acyclic(UpGraph(cells0), rank0, bound) && bound >= 1
    requires Symmetric(cells0) && Linked(data0, cells0)
    requires Occupied(data0, cells0, n0) && Occupied(data, cells, n)
    requires Rewired(data0, cells0, data, cells, c, impl)
    requires forall i :: i in cells0 ==> i in rank && rank[i] == rank0[i]
    requires forall d :: d in cells && d !in cells0 ==> d in rank && rank[d] == 0
    requires c in rank0 && rank0[c] >= 1
    requires forall q :: q in References(impl) && q in data0 ==> data0[q] in rank0 && rank0[data0[q]] < rank0[c]
    ensures Acyclic(UpGraph(cells), rank, bound)
    ensures Symmetric(cells)
    ensures Linked(data, cells)
  {
    var t := Targets(data, References(impl));
    forall q | q in References(impl) && q in data0
      ensures data0[q] in rank && rank[data0[q]] < rank[c]
    {
    }
    RewiredTargets(data0, cells0, data, cells, c, impl, rank, n0, n);
    RewiredAcyclic(cells0, cells, c, t, rank0, rank, bound);
    RewiredSymmetric(cells0, cells, c, t);
    RewiredLinked(data0, cells0, data, cells, c, impl);
  }

  /**
   * The climb at the heart of Sheet::IsCircular: a depth-first walk up the
   * dependants of c that stops at the first cell among targets.
   */
  method ClimbFinds(cells: map<CellId, Cell>, ghost rank: map<CellId, nat>, ghost bound: nat, c: CellId,
                    targets: set<Option<CellId>>) returns (found: bool)
    requires c in cells && Acyclic(UpGraph(cells), rank, bound)
    ensures found <==> exists t :: Some(t) in targets && Reaches(UpGraph(cells), c, t)
  {
    ghost var g := UpGraph(cells);
    var toVisit: seq<CellId> := [c];
    ReachesRefl(g, c);
    while toVisit != []
      invariant Climbed(g, c, toVisit)
      invariant Covers(g, c, targets, toVisit, {})
      decreases StackWeight(g, rank, bound, toVisit)
    {
      ghost var before := toVisit;
      var cell := toVisit[|toVisit| - 1];
      toVisit := toVisit[..|toVisit| - 1];
      if Some(cell) in targets {
        return true;
      }
      var ups := cells[cell].up;
      CoversPop(g, c, targets, before, cell);
      ClimbedPop(g, c, before);
      while ups != {}
        invariant ups <= g[cell]
        invariant Climbed(g, c, toVisit)
        invariant Covers(g, c, targets, toVisit, ups)
        invariant StackWeight(g, rank, bound, toVisit) + Forest(g, rank, bound, ups, rank[cell])
          == StackWeight(g, rank, bound, before[..|before| - 1]) + Forest(g, rank, bound, g[cell], rank[cell])
        decreases ups
      {
        var u :| u in ups;
        ForestRemove(g, rank, bound, ups, rank[cell], u);
        StackWeightPush(g, rank, bound, toVisit, u);
        ReachesExtend(g, c, cell, u);
        CoversPush(g, c, targets, toVisit, ups, u);
        ClimbedPush(g, c, toVisit, u);
        toVisit := toVisit + [u];
        ups := ups - {u};
      }
  }
  return false;
  }

  /** Every cell on the stack is one c reaches. */
  ghost predicate Climbed(g: Graph, c: CellId, stack: seq<CellId>) {
    forall k :: 0 <= k < |stack| ==> stack[k] in g && Reaches(g, c, stack[k])
  }

  /** Every target c reaches is reached from a cell on the stack or from one still to be pushed. */
  ghost predicate Covers(g: Graph, c: CellId, targets: set<Option<CellId>>, stack: seq<CellId>, pending: set<CellId>) {
    forall t :: Some(t) in targets && Reaches(g, c, t) ==>
      (exists k :: 0 <= k < |stack| && Reaches(g, stack[k], t)) || (exists u :: u in pending && Reaches(g, u, t))
  }

  lemma ClimbedPop(g: Graph, c: CellId, stack: seq<CellId>)
    requires stack != [] && Climbed(g, c, stack)
    ensures Climbed(g, c, stack[..|stack| - 1])
    ensures stack[|stack| - 1] in g && Reaches(g, c, stack[|stack| - 1])
  {
  }

  lemma ClimbedPush(g: Graph, c: CellId, stack: seq<CellId>, u: CellId)
    requires Climbed(g, c, stack) && u in g && Reaches(g, c, u)
    ensures Climbed(g, c, stack + [u])
  {
  }

  lemma CoversPop(g: Graph, c: CellId, targets: set<Option<CellId>>, before: seq<CellId>, cell: CellId)
    requires before != [] && cell == before[|before| - 1] && cell in g
    requires Some(cell) !in targets
    requires Covers(g, c, targets, before, {})
    ensures Covers(g, c, targets, before[..|before| - 1], g[cell])
  {
    var rest := before[..|before| - 1];
    forall t | Some(t) in targets && Reaches(g, c, t)
      ensures (exists k :: 0 <= k < |rest| && Reaches(g, rest[k], t)) || (exists u :: u in g[cell] && Reaches(g, u, t))
    {
      var k :| 0 <= k < |before| && Reaches(g, before[k], t);
      if k < |rest| {
        assert rest[k] == before[k];
      } else {
        ReachesUnfold(g, cell, t);
      }
    }
  }

  lemma CoversPush(g: Graph, c: CellId, targets: set<Option<CellId>>, stack: seq<CellId>, pending: set<CellId>, u: CellId)
    requires u in pending
    requires Covers(g, c, targets, stack, pending)
    ensures Covers(g, c, targets, stack + [u], pending - {u})
  {
    var stack' := stack + [u];
    forall t | Some(t) in targets && Reaches(g, c, t)
      ensures (exists k :: 0 <= k < |stack'| && Reaches(g, stack'[k], t)) || (exists w :: w in pending - {u} && Reaches(g, w, t))
    {
      if exists k :: 0 <= k < |stack| && Reaches(g, stack[k], t) {
        var k :| 0 <= k < |stack| && Reaches(g, stack[k], t);
        assert stack'[k] == stack[k];
      } else if Reaches(g, u, t) {
        assert stack'[|stack|] == u;
      }
    }
  }

  lemma UpGraphIgnoresContent(cells: map<CellId, Cell>, c: CellId, impl: Impl)
    requires c in cells
    ensures UpGraph(cells[c := cells[c].(impl := impl)]) == UpGraph(cells)
  {
    var cells' := cells[c := cells[c].(impl := impl)];
    assert forall d :: d in UpGraph(cells') ==> d in UpGraph(cells) && UpGraph(cells')[d] == UpGraph(cells)[d];
  }

  lemma SymmetricIgnoresContent(cells: map<CellId, Cell>, c: CellId, impl: Impl)
    requires c in cells && Symmetric(cells)
    ensures Symmetric(cells[c := cells[c].(impl := impl)])
  {
    var cells' := cells[c := cells[c].(impl := impl)];
    assert forall d :: d in cells ==> cells'[d].up == cells[d].up && cells'[d].down == cells[d].down;
  }

  // ---- shapes of the arena before and after a change ---------------------

  /** Two arenas that differ at most in the formulas' cached values. */
  predicate SameShape(a: map<CellId, Cell>, b: map<CellId, Cell>) {
    && a.Keys == b.Keys
    && forall c :: c in a ==>
      b[c].up == a[c].up && b[c].down == a[c].down && ClearedCache(b[c].impl) == ClearedCache(a[c].impl)
  }

  lemma SameShapeUpdate(cells: map<CellId, Cell>, c: CellId, rec: Cell)
    requires c in cells && rec.up == cells[c].up && rec.down == cells[c].down
    requires ClearedCache(rec.impl) == ClearedCache(cells[c].impl)
    ensures SameShape(cells, cells[c := rec])
  {
  }

  /** Caches play no part in the edges, the links or the values. */
  lemma SameShapeKeeps(data: map<Position, CellId>, a: map<CellId, Cell>, b: map<CellId, Cell>)
    requires SameShape(a, b)
    ensures UpGraph(a) == UpGraph(b)
    ensures Symmetric(a) <==> Symmetric(b)
    ensures Linked(data, a) <==> Linked(data, b)
    ensures Skeleton(a) == Skeleton(b)
  {
    forall c | c in a
      ensures b[c].impl.FormulaImpl? == a[c].impl.FormulaImpl?
      ensures References(b[c].impl) == References(a[c].impl)
    {
      assert ClearedCache(b[c].impl) == ClearedCache(a[c].impl);
    }
    assert UpGraph(a) == UpGraph(b);
    assert Skeleton(a) == Skeleton(b);
  }

  /** cells with the caches of c and of every cell above c in g dropped. */
  ghost function ClearedAbove(cells: map<CellId, Cell>, g: Graph, c: CellId): map<CellId, Cell> {
    map d | d in cells :: cells[d].(impl := ClearedIfAbove(g, c, d, cells[d].impl))
  }

  /** Some cell of done reaches d. */
  ghost predicate ReachedFrom(g: Graph, done: set<CellId>, d: CellId) {
    exists u :: u in done && Reaches(g, u, d)
  }

  /** cells with the caches of c and of every cell reached from done dropped. */
  ghost function ClearedBelow(cells: map<CellId, Cell>, g: Graph, c: CellId, done: set<CellId>): map<CellId, Cell> {
    map d | d in cells :: cells[d].(impl := if d == c || ReachedFrom(g, done, d) then ClearedCache(cells[d].impl) else cells[d].impl)
  }

  lemma ClearStart(cells: map<CellId, Cell>, g: Graph, c: CellId)
    requires c in cells
    ensures cells[c := cells[c].(impl := ClearedCache(cells[c].impl))] == ClearedBelow(cells, g, c, {})
  {
  }

  /** Clearing above u once more adds u to the cells already cleared from. */
  lemma ClearStep(cells: map<CellId, Cell>, g: Graph, c: CellId, done: set<CellId>, u: CellId)
    ensures ClearedAbove(ClearedBelow(cells, g, c, done), g, u) == ClearedBelow(cells, g, c, done + {u})
  {
    var a := ClearedAbove(ClearedBelow(cells, g, c, done), g, u);
    var b := ClearedBelow(cells, g, c, done + {u});
    forall d | d in cells
      ensures a[d] == b[d]
    {
      if Reaches(g, u, d) {
        assert ReachedFrom(g, done + {u}, d);
      } else if ReachedFrom(g, done + {u}, d) {
        var w :| w in done + {u} && Reaches(g, w, d);
        assert ReachedFrom(g, done, d);
      }
    }
  }

  /** Clearing from c itself and from each cell directly above it clears everything above c. */
  lemma ClearEnd(cells: map<CellId, Cell>, g: Graph, c: CellId, done: set<CellId>)
    requires c in g && {} + done == g[c]
    ensures ClearedBelow(cells, g, c, done) == ClearedAbove(cells, g, c)
  {
    assert done == g[c];
    forall d | d in cells
      ensures (d == c || ReachedFrom(g, g[c], d)) <==> Reaches(g, c, d)
    {
      if Reaches(g, c, d) && d != c {
        ReachesUnfold(g, c, d);
      }
      if d == c {
        ReachesRefl(g, c);
      } else if ReachedFrom(g, g[c], d) {
        var u :| u in g[c] && Reaches(g, u, d);
        ReachesStep(g, c, u, d);
      }
    }
  }

  /** The content of d once the caches of c and of every cell above c in g are dropped. */
  ghost function ClearedIfAbove(g: Graph, c: CellId, d: CellId, impl: Impl): Impl {
    if Reaches(g, c, d) then ClearedCache(impl) else impl
  }

  /** The sheet invariant on the edges and links survives a change of caches. */
  lemma SameShapeValid(data: map<Position, CellId>, a: map<CellId, Cell>, b: map<CellId, Cell>,
                       owner: map<CellId, Position>, n: nat, rank: map<CellId, nat>, bound: nat)
    requires SameShape(a, b)
    requires Owned(data, a, owner, n) && Acyclic(UpGraph(a), rank, bound) && Symmetric(a) && Linked(data, a)
    ensures Owned(data, b, owner, n) && Acyclic(UpGraph(b), rank, bound) && Symmetric(b) && Linked(data, b)
  {
    SameShapeKeeps(data, a, b);
  }

  lemma SameShapeAfterClear(a: map<CellId, Cell>, g: Graph, c: CellId)
    ensures SameShape(a, ClearedAbove(a, g, c))
  {
  }

  /** A new empty cell with no edges at an unoccupied position keeps the graph ranked, symmetric and linked. */
  lemma FreshCellKeeps(data: map<Position, CellId>, cells: map<CellId, Cell>, rank: map<CellId, nat>, bound: nat,
                       pos: Position, n: CellId)
    requires Acyclic(UpGraph(cells), rank, bound) && Symmetric(cells) && Linked(data, cells)
    requires pos !in data && n !in cells && bound >= 1
    ensures Acyclic(UpGraph(cells[n := Cell(EmptyImpl, {}, {})]), rank[n := 0], bound)
    ensures Symmetric(cells[n := Cell(EmptyImpl, {}, {})])
    ensures Linked(data[pos := n], cells[n := Cell(EmptyImpl, {}, {})])
  {
    FreshAcyclic(cells, rank, bound, n);
    FreshSymmetric(cells, rank, bound, n);
    var cells' := cells[n := Cell(EmptyImpl, {}, {})];
    forall x | x in cells' && cells'[x].impl.FormulaImpl?
      ensures Targets(data[pos := n], References(cells'[x].impl)) == Targets(data, References(cells'[x].impl))
    {
      TargetsExtend(data, data[pos := n], References(cells'[x].impl));
    }
  }

  lemma FreshAcyclic(cells: map<CellId, Cell>, rank: map<CellId, nat>, bound: nat, n: CellId)
    requires Acyclic(UpGraph(cells), rank, bound) && n !in cells && bound >= 1
    ensures Acyclic(UpGraph(cells[n := Cell(EmptyImpl, {}, {})]), rank[n := 0], bound)
  {
    var g, g' := UpGraph(cells), UpGraph(cells[n := Cell(EmptyImpl, {}, {})]);
    assert forall x :: x in g' && x != n ==> x in g && g'[x] == g[x] && n !in g[x];
  }

  lemma FreshSymmetric(cells: map<CellId, Cell>, rank: map<CellId, nat>, bound: nat, n: CellId)
    requires Acyclic(UpGraph(cells), rank, bound) && Symmetric(cells) && n !in cells
    ensures Symmetric(cells[n := Cell(EmptyImpl, {}, {})])
  {
    var cells' := cells[n := Cell(EmptyImpl, {}, {})];
    var g := UpGraph(cells);
    forall x | x in cells'
      ensures cells'[x].down <= cells'.Keys
    {
    }
    forall x, y | x in cells' && y in cells'
      ensures y in cells'[x].down <==> x in cells'[y].up
    {
      if x != n && y != n {
        assert cells'[x] == cells[x] && cells'[y] == cells[y];
      } else if x == n && y != n {
        assert n !in g[y];
      } else if y == n && x != n {
        assert n !in cells[x].down;
      }
    }
  }

  /** Growing a tight size by a newly occupied position keeps it tight. */
  lemma GrownTight(data0: map<Position, CellId>, size0: Size, data: map<Position, CellId>, pos: Position)
    requires Tight(data0, size0) && pos.IsValid()
    requires data.Keys == data0.Keys + {pos}
    ensures Tight(data, Grown(size0, pos))
  {
    var size := Grown(size0, pos);
    if size.rows != 0 && size.rows != pos.row + 1 {
      var p :| p in data0 && p.row == size0.rows - 1;
      assert p in data;
    }
    if size.cols != 0 && size.cols != pos.col + 1 {
      var p :| p in data0 && p.col == size0.cols - 1;
      assert p in data;
    }
  }

  /** Targets only looks at the positions it is given. */
  lemma TargetsExtend(data0: map<Position, CellId>, data: map<Position, CellId>, refs: seq<Position>)
    requires forall q :: q in refs ==> q in data0
    requires forall p :: p in data0 ==> p in data && data[p] == data0[p]
    ensures Targets(data, refs) == Targets(data0, refs)
  {
  }

  lemma TargetsAppend(data: map<Position, CellId>, refs: seq<Position>, pos: Position)
    requires pos in data
    ensures Targets(data, refs + [pos]) == Targets(data, refs) + {data[pos]}
  {
    var t := Targets(data, refs + [pos]);
    forall x | x in t
      ensures x in Targets(data, refs) + {data[pos]}
    {
      var q :| q in refs + [pos] && q in data && data[q] == x;
      if q != pos {
        assert q in refs;
      }
    }
  }
}
