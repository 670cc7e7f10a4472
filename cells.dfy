/**
 * A cell's content (empty, text or formula with its value cache), the
 * record a cell is made of (content plus the cells it feeds and the cells it
 * reads), and the graph of "up" edges, from a cell to the cells whose
 * formulas read it, over which the circularity check and the cache
 * invalidation walk.
 */
module Cells {
  import opened Wrappers
  import opened Structures
  import opened Formulas

  const FORMULA_SIGN: char := '='
  const ESCAPE_SIGN: char := '\''

  /** The implementation a cell delegates to. */
  datatype Impl = EmptyImpl | TextImpl(text: string) | FormulaImpl(ast: Ast, cache: Option<FormulaValue>)

  /** Identity of a cell object; a destroyed cell's id is never reused. */
  type CellId = nat

  /** A cell: its content, the cells whose formulas read it (up), the cells its formula reads (down). */
  datatype Cell = Cell(impl: Impl, up: set<CellId>, down: set<CellId>)

  /** The exceptions the sheet's mutators throw. */
  datatype Exception = InvalidPositionException | ParseError(cause: FormulaException) | CircularDependencyException

  // ---- content ----------------------------------------------------------

  /** The content Cell::Set builds for a text, or the exception building it throws. */
  function MakeImpl(e: Engine, text: string): (r: Result<Impl, Exception>)
    ensures r.Failure? <==> |text| > 1 && text[0] == FORMULA_SIGN && e.parse(text[1..]).None?
    ensures r.Failure? ==> r.error == ParseError(FormulaException(""))
    ensures r.Success? && r.value.FormulaImpl? ==>
      |text| > 1 && text[0] == FORMULA_SIGN && r.value == FormulaImpl(e.parse(text[1..]).value, None)
    ensures r.Success? && !r.value.FormulaImpl? ==> GetText(r.value) == text
    ensures text == "" ==> r == Success(EmptyImpl)
    ensures text != "" && (|text| == 1 || text[0] != FORMULA_SIGN) ==> r == Success(TextImpl(text))
    ensures |text| > 1 && text[0] == FORMULA_SIGN && e.parse(text[1..]).Some? ==>
      r == Success(FormulaImpl(e.parse(text[1..]).value, None))
  {
    if |text| == 0 then Success(EmptyImpl)
    else if |text| == 1 || text[0] != FORMULA_SIGN then Success(TextImpl(text))
    else match ParseFormula(e, text[1..])
      case Success(ast) => Success(FormulaImpl(ast, None))
      case Failure(ex) => Failure(ParseError(ex))
  }

  function GetText(impl: Impl): string {
    match impl
    case EmptyImpl => ""
    case TextImpl(t) => t
    case FormulaImpl(ast, _) => [FORMULA_SIGN] + ast.expression
  }

  /** The value a text cell shows: its text without a leading escape sign. */
  function TextValue(t: string): (v: string)
    ensures t != "" && t[0] == ESCAPE_SIGN ==> t == [ESCAPE_SIGN] + v
    ensures (t == "" || t[0] != ESCAPE_SIGN) ==> v == t
  {
    if t != "" && t[0] == ESCAPE_SIGN then t[1..] else t
  }

  /** Impl::GetReferencedCells: nothing for empty and text content. */
  function References(impl: Impl): (r: seq<Position>)
    ensures forall q :: q in r ==> q.IsValid()
    ensures impl.FormulaImpl? ==> forall q :: q in r <==> q in impl.ast.cells && q.IsValid()
    ensures !impl.FormulaImpl? ==> r == []
  {
    if impl.FormulaImpl? then
      ReferencedCellsMembers(impl.ast.cells);
      ReferencedCells(impl.ast.cells)
    else []
  }

  /** Impl::ClearCache: forgets a formula's cached value. */
  function ClearedCache(impl: Impl): (r: Impl)
    ensures r.FormulaImpl? <==> impl.FormulaImpl?
    ensures r.FormulaImpl? ==> r.ast == impl.ast && r.cache == None
    ensures !r.FormulaImpl? ==> r == impl
  {
    if impl.FormulaImpl? then FormulaImpl(impl.ast, None) else impl
  }

  /** A text starting with the escape sign shows the rest of it and keeps its text. */
  lemma EscapedText(e: Engine, t: string)
    requires t != "" && t[0] == ESCAPE_SIGN
    ensures MakeImpl(e, t) == Success(TextImpl(t))
    ensures GetText(TextImpl(t)) == t && TextValue(t) == t[1..]
  {
  }

  /** A lone "=" is text, not a formula. */
  lemma LoneFormulaSignIsText(e: Engine)
    ensures MakeImpl(e, [FORMULA_SIGN]) == Success(TextImpl([FORMULA_SIGN]))
  {
  }

  /** A formula cell's text is the printed expression behind the sign. */
  lemma FormulaText(e: Engine, text: string)
    requires |text| > 1 && text[0] == FORMULA_SIGN && e.parse(text[1..]).Some?
    ensures MakeImpl(e, text).Success?
    ensures GetText(MakeImpl(e, text).value) == [FORMULA_SIGN] + e.parse(text[1..]).value.expression
  {
  }

  // ---- the up graph -----------------------------------------------------

  type Graph = map<CellId, set<CellId>>

  function UpGraph(cells: map<CellId, Cell>): Graph {
    map c | c in cells :: cells[c].up
  }

  predicate Closed(g: Graph) {
    forall c :: c in g ==> g[c] <= g.Keys
  }

  /** rank grows strictly along every up edge, so the graph has no cycle. */
  ghost predicate Acyclic(g: Graph, rank: map<CellId, nat>, bound: nat) {
    && Closed(g)
    && (forall c :: c in g ==> c in rank && rank[c] < bound)
    && (forall c, u {:trigger u in g[c]} :: c in g && u in g[c] ==> rank[c] < rank[u])
  }

  ghost predicate ReachesWithin(g: Graph, from: CellId, to: CellId, n: nat)
    decreases n
  {
    from == to || (n > 0 && from in g && exists u :: u in g[from] && ReachesWithin(g, u, to, n - 1))
  }

  /** `to` is `from` or lies on a path of up edges from `from`. */
  ghost predicate Reaches(g: Graph, from: CellId, to: CellId) {
    exists n: nat :: ReachesWithin(g, from, to, n)
  }

  lemma ReachesRefl(g: Graph, x: CellId)
    ensures Reaches(g, x, x)
  {
    assert ReachesWithin(g, x, x, 0);
  }

  lemma ReachesStep(g: Graph, x: CellId, u: CellId, to: CellId)
    requires x in g && u in g[x] && Reaches(g, u, to)
    ensures Reaches(g, x, to)
  {
    var n: nat :| ReachesWithin(g, u, to, n);
    assert ReachesWithin(g, x, to, n + 1);
  }

  /** A path that does not stay put leaves through an up edge. */
  lemma ReachesUnfold(g: Graph, from: CellId, to: CellId)
    requires Reaches(g, from, to) && from != to
    ensures from in g && exists u :: u in g[from] && Reaches(g, u, to)
  {
    var n: nat :| ReachesWithin(g, from, to, n);
    var u :| u in g[from] && ReachesWithin(g, u, to, n - 1);
    assert Reaches(g, u, to);
  }

  lemma {:induction false} ReachesWithinExtend(g: Graph, from: CellId, x: CellId, u: CellId, n: nat)
    requires ReachesWithin(g, from, x, n) && x in g && u in g[x]
    ensures ReachesWithin(g, from, u, n + 1)
    decreases n
  {
    if from == x {
      assert ReachesWithin(g, u, u, n);
    } else {
      var v :| v in g[from] && ReachesWithin(g, v, x, n - 1);
      ReachesWithinExtend(g, v, x, u, n - 1);
    }
  }

  /** Reachability is closed under one more up edge at the end. */
  lemma ReachesExtend(g: Graph, from: CellId, x: CellId, u: CellId)
    requires Reaches(g, from, x) && x in g && u in g[x]
    ensures Reaches(g, from, u)
  {
    var n: nat :| ReachesWithin(g, from, x, n);
    ReachesWithinExtend(g, from, x, u, n);
  }

  lemma {:induction false} ReachesWithinRanked(g: Graph, rank: map<CellId, nat>, bound: nat, from: CellId, to: CellId, n: nat)
    requires Acyclic(g, rank, bound) && from in g && ReachesWithin(g, from, to, n)
    ensures to in g
    ensures from != to ==> rank[from] < rank[to]
    decreases n
  {
    if from != to {
      var u :| u in g[from] && ReachesWithin(g, u, to, n - 1);
      ReachesWithinRanked(g, rank, bound, u, to, n - 1);
    }
  }

  /** Along a path of up edges the rank strictly grows; in particular no cell reaches itself by a cycle. */
  lemma ReachesRanked(g: Graph, rank: map<CellId, nat>, bound: nat, from: CellId, to: CellId)
    requires Acyclic(g, rank, bound) && from in g && Reaches(g, from, to)
    ensures to in g
    ensures from != to ==> rank[from] < rank[to]
  {
    var n: nat :| ReachesWithin(g, from, to, n);
    ReachesWithinRanked(g, rank, bound, from, to, n);
  }

  /** A cell no formula reads reaches only itself. */
  lemma ReachesFromLeaf(g: Graph, x: CellId, to: CellId)
    requires x in g && g[x] == {}
    ensures Reaches(g, x, to) <==> to == x
  {
    if Reaches(g, x, to) && to != x {
      ReachesUnfold(g, x, to);
    }
    if to == x {
      ReachesRefl(g, x);
    }
  }

  /**
   * Lifting the ranks of everything `c` reaches by the old bound keeps the
   * graph ranked and puts `c` above every cell it does not reach.
   */
  lemma LiftRanks(g: Graph, rank: map<CellId, nat>, bound: nat, c: CellId, lifted: map<CellId, nat>)
    requires Acyclic(g, rank, bound) && c in g
    requires lifted == map i | i in rank :: if Reaches(g, c, i) then rank[i] + bound else rank[i]
    ensures Acyclic(g, lifted, 2 * bound)
    ensures forall d :: d in g && !Reaches(g, c, d) ==> lifted[d] < lifted[c]
    ensures lifted[c] >= 1
    ensures lifted.Keys == rank.Keys
  {
    ReachesRefl(g, c);
    forall x, u | x in g && u in g[x]
      ensures lifted[x] < lifted[u]
    {
      if Reaches(g, c, x) {
        ReachesExtend(g, c, x, u);
      }
    }
  }

  // ---- a termination measure for walking up edges with a stack ----------

  /** The number of paths of up edges starting at x (x itself included). */
  ghost function Tree(g: Graph, rank: map<CellId, nat>, bound: nat, x: CellId): nat
    requires Acyclic(g, rank, bound) && x in g
    decreases bound - rank[x], 1, 0
  {
    1 + Forest(g, rank, bound, g[x], rank[x])
  }

  ghost function Forest(g: Graph, rank: map<CellId, nat>, bound: nat, s: set<CellId>, level: nat): nat
    requires Acyclic(g, rank, bound) && level < bound
    requires forall y :: y in s ==> y in g && level < rank[y]
    decreases bound - level, 0, |s|
  {
    if s == {} then 0
    else
      var y :| y in s;
      Tree(g, rank, bound, y) + Forest(g, rank, bound, s - {y}, level)
  }

  /** The sum of the Trees of the cells on a stack. */
  ghost function StackWeight(g: Graph, rank: map<CellId, nat>, bound: nat, s: seq<CellId>): nat
    requires Acyclic(g, rank, bound)
    requires forall k :: 0 <= k < |s| ==> s[k] in g
  {
    if s == [] then 0
    else StackWeight(g, rank, bound, s[..|s| - 1]) + Tree(g, rank, bound, s[|s| - 1])
  }

  /** A Forest is the same whichever element is taken out first. */
  lemma {:induction false} ForestRemove(g: Graph, rank: map<CellId, nat>, bound: nat, s: set<CellId>, level: nat, y: CellId)
    requires Acyclic(g, rank, bound) && level < bound
    requires forall z :: z in s ==> z in g && level < rank[z]
    requires y in s
    ensures Forest(g, rank, bound, s, level) == Tree(g, rank, bound, y) + Forest(g, rank, bound, s - {y}, level)
    decreases |s|
  {
    var z :| z in s && Forest(g, rank, bound, s, level) == Tree(g, rank, bound, z) + Forest(g, rank, bound, s - {z}, level);
    if z != y {
      ForestRemove(g, rank, bound, s - {z}, level, y);
      ForestRemove(g, rank, bound, s - {y}, level, z);
      assert s - {z} - {y} == s - {y} - {z};
    }
  }

  lemma StackWeightPush(g: Graph, rank: map<CellId, nat>, bound: nat, s: seq<CellId>, x: CellId)
    requires Acyclic(g, rank, bound)
    requires forall k :: 0 <= k < |s| ==> s[k] in g
    requires x in g
    ensures StackWeight(g, rank, bound, s + [x]) == StackWeight(g, rank, bound, s) + Tree(g, rank, bound, x)
  {
    assert (s + [x])[..|s|] == s;
  }
}
