/**
 * The formula layer: error values, the values a formula or a cell yields,
 * how a referenced cell's value is turned into a number, and the list of
 * cells a formula references. The expression parser and the evaluator of
 * the syntax tree are parameters of the model (an Engine).
 */
module Formulas {
  import opened Wrappers
  import opened Structures

  datatype Category = Ref | Value | Arithmetic

  datatype FormulaError = FormulaError(category: Category) {
    function Equals(rhs: FormulaError): (r: bool)
      ensures r <==> this == rhs
    {
      category == rhs.category
    }

    /** The display token of the error's category. */
    function ToString(): string {
      match category
      case Ref => "#REF!"
      case Value => "#VALUE!"
      case Arithmetic => "#ARITHM!"
    }
  }

  /** The exception a formula text the parser rejects raises. */
  datatype FormulaException = FormulaException(message: string)

  /** What FormulaInterface::Evaluate returns. */
  datatype FormulaValue = Number(number: real) | Failed(error: FormulaError)

  /** What CellInterface::GetValue returns. */
  datatype CellValue = Str(text: string) | Num(number: real) | Err(error: FormulaError)

  /** A parsed formula: the cells it mentions, in the parser's order, and its printed form. */
  datatype Ast = Ast(cells: seq<Position>, expression: string)

  /** A number returned, or a FormulaError thrown. */
  datatype Execution = Returned(number: real) | Thrown(error: FormulaError)

  /**
   * The expression engine: the parser, the evaluator of a syntax tree given
   * the outcome of looking up each cell it mentions, std::stod (the number
   * read and the characters consumed, or None when it throws) and the
   * printing of a double.
   */
  datatype Engine = Engine(
    parse: string -> Option<Ast>,
    execute: (Ast, map<Position, Execution>) -> Execution,
    stod: string -> Option<(real, nat)>,
    show: real -> string)

  // ---- errors -----------------------------------------------------------

  /** operator<< on a FormulaError, as written: the same token for every category. */
  function StreamedText(e: FormulaError): string {
    "#ARITHM!"
  }

  /** operator<< on a FormulaError, corrected: the category's own token. */
  function PrintedText(e: FormulaError): (s: string)
    ensures e.category == Ref ==> s == "#REF!"
    ensures e.category == Value ==> s == "#VALUE!"
    ensures e.category == Arithmetic ==> s == "#ARITHM!"
  {
    e.ToString()
  }

  /** Distinct categories have distinct tokens, each of the form "#...!". */
  lemma TokensDistinguishCategories(a: FormulaError, b: FormulaError)
    ensures a.ToString() == b.ToString() <==> a == b
    ensures |a.ToString()| >= 2 && a.ToString()[0] == '#' && a.ToString()[|a.ToString()| - 1] == '!'
  {
  }

  /** Printing corrected: the printed text identifies the error. */
  lemma PrintedTextIdentifies(a: FormulaError, b: FormulaError)
    ensures PrintedText(a) == PrintedText(b) <==> a == b
  {
    TokensDistinguishCategories(a, b);
  }

  /** Printing as written: a #REF! or #VALUE! error is shown as #ARITHM!. */
  lemma StreamedTextConfuses()
    ensures StreamedText(FormulaError(Ref)) == StreamedText(FormulaError(Arithmetic))
    ensures StreamedText(FormulaError(Ref)) != FormulaError(Ref).ToString()
    ensures StreamedText(FormulaError(Value)) != FormulaError(Value).ToString()
  {
  }

  // ---- parsing and evaluation --------------------------------------------

  /** ParseFormula: whatever the parser throws surfaces as a FormulaException with an empty message. */
  function ParseFormula(e: Engine, expression: string): (r: Result<Ast, FormulaException>)
    ensures r.Success? <==> e.parse(expression).Some?
    ensures r.Success? ==> r.value == e.parse(expression).value
    ensures r.Failure? ==> r.error == FormulaException("")
  {
    match e.parse(expression)
    case Some(ast) => Success(ast)
    case None => Failure(FormulaException(""))
  }

  /** std::stod applied to the text of a referenced cell. */
  function TextToNumber(e: Engine, s: string): Execution {
    if s == "" then Returned(0.0)
    else match e.stod(s)
      case None => Thrown(FormulaError(Value))
      case Some((x, consumed)) => if consumed != |s| then Thrown(FormulaError(Value)) else Returned(x)
  }

  /**
   * The argument lookup of Formula::Evaluate for one position, given the
   * referenced cell's value (None when the sheet has no cell there).
   */
  function Lookup(e: Engine, pos: Position, cell: Option<CellValue>): Execution {
    if !pos.IsValid() then Thrown(FormulaError(Ref))
    else match cell
      case None => Returned(0.0)
      case Some(Num(x)) => Returned(x)
      case Some(Str(s)) => TextToNumber(e, s)
      case Some(Err(err)) => Thrown(err)
  }

  /** The numbers a lookup yields. */
  lemma LookupNumbers(e: Engine, pos: Position, cell: Option<CellValue>)
    requires pos.IsValid()
    ensures cell == None ==> Lookup(e, pos, cell) == Returned(0.0)
    ensures cell == Some(Str("")) ==> Lookup(e, pos, cell) == Returned(0.0)
    ensures forall x :: cell == Some(Num(x)) ==> Lookup(e, pos, cell) == Returned(x)
    ensures forall s, x :: cell == Some(Str(s)) && s != "" && e.stod(s) == Some((x, |s| as nat)) ==>
      Lookup(e, pos, cell) == Returned(x)
  {
  }

  /** Where each kind of error thrown by a lookup comes from. */
  lemma LookupErrors(e: Engine, pos: Position, cell: Option<CellValue>)
    ensures Lookup(e, pos, cell) == Thrown(FormulaError(Ref)) <==>
      !pos.IsValid() || cell == Some(Err(FormulaError(Ref)))
    ensures Lookup(e, pos, cell) == Thrown(FormulaError(Value)) <==>
      pos.IsValid() && (cell == Some(Err(FormulaError(Value))) ||
        (cell.Some? && cell.value.Str? && cell.value.text != "" &&
          (e.stod(cell.value.text).None? || e.stod(cell.value.text).value.1 != |cell.value.text|)))
    ensures Lookup(e, pos, cell) == Thrown(FormulaError(Arithmetic)) <==>
      pos.IsValid() && cell == Some(Err(FormulaError(Arithmetic)))
  {
  }

  /** Formula::Evaluate: an error thrown while executing becomes the result. */
  function Evaluate(e: Engine, ast: Ast, args: map<Position, Execution>): (r: FormulaValue)
    ensures r.Failed? <==> e.execute(ast, args).Thrown?
    ensures r.Failed? ==> r.error == e.execute(ast, args).error
    ensures r.Number? ==> r.number == e.execute(ast, args).number
  {
    match e.execute(ast, args)
    case Returned(x) => Number(x)
    case Thrown(err) => Failed(err)
  }

  // ---- referenced cells ---------------------------------------------------

  /** The valid positions of s, in order. */
  function ValidCells(s: seq<Position>): seq<Position> {
    if s == [] then []
    else ValidCells(s[..|s| - 1]) + (if s[|s| - 1].IsValid() then [s[|s| - 1]] else [])
  }

  /** std::unique: s with every element equal to its predecessor dropped. */
  function Unique(s: seq<Position>): seq<Position> {
    if |s| <= 1 then s
    else if s[|s| - 1] == s[|s| - 2] then Unique(s[..|s| - 1])
    else Unique(s[..|s| - 1]) + [s[|s| - 1]]
  }

  /** What Formula::GetReferencedCells returns for the cells a tree mentions. */
  function ReferencedCells(s: seq<Position>): seq<Position> {
    Unique(ValidCells(s))
  }

  method GetReferencedCells(ast: Ast) returns (r: seq<Position>)
    ensures r == ReferencedCells(ast.cells)
  {
    var cells: seq<Position> := [];
    var i := 0;
    while i < |ast.cells|
      invariant 0 <= i <= |ast.cells|
      invariant cells == ValidCells(ast.cells[..i])
    {
      assert ast.cells[..i + 1][..i] == ast.cells[..i];
      if ast.cells[i].IsValid() {
        cells := cells + [ast.cells[i]];
      }
      i := i + 1;
    }
    assert ast.cells[..i] == ast.cells;
    var a := new Position[|cells|](k requires 0 <= k < |cells| => cells[k]);
    assert a[..] == cells;
    var n := UniqueInPlace(a);
    r := a[..n];
  }

  /** std::unique on an array: compacts it and returns the new logical length. */
  method UniqueInPlace(a: array<Position>) returns (n: nat)
    modifies a
    ensures n <= a.Length
    ensures a[..n] == Unique(old(a[..]))
  {
    if a.Length == 0 {
      return 0;
    }
    ghost var s := a[..];
    var w := 0;
    var rd := 1;
    assert s[..1] == [s[0]];
    while rd < a.Length
      invariant 0 <= w < rd <= a.Length
      invariant a[..w + 1] == Unique(s[..rd])
      invariant forall k :: rd <= k < a.Length ==> a[k] == s[k]
      invariant a[w] == s[rd - 1]
    {
      assert s[..rd + 1] == s[..rd] + [s[rd]];
      UniqueAppendOne(s[..rd], s[rd]);
      if a[w] != a[rd] {
        w := w + 1;
        a[w] := a[rd];
      }
      rd := rd + 1;
    }
    n := w + 1;
    assert s[..a.Length] == s;
  }

  lemma {:induction false} ValidCellsMembers(s: seq<Position>)
    ensures forall x :: x in ValidCells(s) <==> x in s && x.IsValid()
    ensures |ValidCells(s)| <= |s|
    decreases |s|
  {
    if s != [] {
      ValidCellsMembers(s[..|s| - 1]);
      assert s == s[..|s| - 1] + [s[|s| - 1]];
    }
  }

  lemma {:induction false} UniqueMembers(s: seq<Position>)
    ensures forall x :: x in Unique(s) <==> x in s
    ensures |Unique(s)| <= |s|
    ensures s != [] ==> Unique(s) != [] && Unique(s)[|Unique(s)| - 1] == s[|s| - 1]
    ensures forall i :: 0 <= i < |Unique(s)| - 1 ==> Unique(s)[i] != Unique(s)[i + 1]
    decreases |s|
  {
    if |s| > 1 {
      var t := s[..|s| - 1];
      UniqueMembers(t);
      assert s == t + [s[|s| - 1]];
    }
  }

  /** The filter keeps the order of its input: it works piece by piece. */
  lemma {:induction false} ValidCellsAppend(s: seq<Position>, t: seq<Position>)
    ensures ValidCells(s + t) == ValidCells(s) + ValidCells(t)
    decreases |t|
  {
    if t == [] {
      assert s + t == s;
    } else {
      var u := t[..|t| - 1];
      var x := t[|t| - 1];
      ValidCellsAppend(s, u);
      assert s + t == (s + u) + [x];
      ValidCellsAppendOne(s + u, x);
    }
  }

  /** The filter on s followed by one more position: that position is kept exactly when it is valid. */
  lemma ValidCellsAppendOne(s: seq<Position>, x: Position)
    ensures ValidCells(s + [x]) == ValidCells(s) + (if x.IsValid() then [x] else [])
    ensures ValidCells([x]) == (if x.IsValid() then [x] else [])
  {
    assert (s + [x])[..|s|] == s;
    assert [x][..0] == [];
  }

  /** std::unique drops an element only when it repeats its predecessor, so it leaves repeat-free input alone. */
  lemma {:induction false} UniqueOfDistinctNeighbours(s: seq<Position>)
    requires forall i :: 0 <= i < |s| - 1 ==> s[i] != s[i + 1]
    ensures Unique(s) == s
    decreases |s|
  {
    if |s| > 1 {
      var u := s[..|s| - 1];
      assert forall i :: 0 <= i < |u| - 1 ==> u[i] != u[i + 1] by {
        forall i | 0 <= i < |u| - 1
          ensures u[i] != u[i + 1]
        {
          assert u[i] == s[i] && u[i + 1] == s[i + 1];
        }
      }
      UniqueOfDistinctNeighbours(u);
      assert s[|s| - 1] != s[|s| - 2];
      assert s == u + [s[|s| - 1]];
    }
  }

  /** std::unique keeps order: on a concatenation it works piece by piece, merging a repeat across the seam. */
  /** std::unique on s followed by one more element. */
  lemma UniqueAppendOne(s: seq<Position>, x: Position)
    requires s != []
    ensures Unique(s + [x]) == if s[|s| - 1] == x then Unique(s) else Unique(s) + [x]
  {
    assert (s + [x])[..|s|] == s;
  }

  lemma {:induction false} UniqueAppend(s: seq<Position>, t: seq<Position>)
    requires s != [] && t != []
    ensures Unique(t) != []
    ensures s[|s| - 1] != t[0] ==> Unique(s + t) == Unique(s) + Unique(t)
    ensures s[|s| - 1] == t[0] ==> Unique(s + t) == Unique(s) + Unique(t)[1..]
    decreases |t|
  {
    var st := s + t;
    assert st[|st| - 1] == t[|t| - 1];
    if |t| == 1 {
      UniqueAppendOne(s, t[0]);
      assert st == s + [t[0]];
    } else {
      var u := t[..|t| - 1];
      var x := t[|t| - 1];
      UniqueAppend(s, u);
      assert st[..|st| - 1] == s + u;
      assert st[|st| - 2] == t[|t| - 2];
      assert u[0] == t[0];
      if x == t[|t| - 2] {
        assert Unique(st) == Unique(s + u);
        assert Unique(t) == Unique(u);
      } else {
        assert Unique(st) == Unique(s + u) + [x];
        assert Unique(t) == Unique(u) + [x];
      }
    }
  }

  /** GetReferencedCells keeps exactly the valid positions, with no adjacent repeats. */
  lemma ReferencedCellsMembers(s: seq<Position>)
    ensures forall x :: x in ReferencedCells(s) <==> x in s && x.IsValid()
    ensures forall i :: 0 <= i < |ReferencedCells(s)| ==> ReferencedCells(s)[i].IsValid()
    ensures forall i :: 0 <= i < |ReferencedCells(s)| - 1 ==> ReferencedCells(s)[i] != ReferencedCells(s)[i + 1]
    ensures |ReferencedCells(s)| <= |s|
  {
    ValidCellsMembers(s);
    UniqueMembers(ValidCells(s));
  }

  predicate Ascending(s: seq<Position>) {
    forall i, j :: 0 <= i < j < |s| ==> !s[j].Less(s[i])
  }

  predicate StrictlyAscending(s: seq<Position>) {
    forall i, j :: 0 <= i < j < |s| ==> s[i].Less(s[j])
  }

  lemma {:induction false} ValidCellsAscending(s: seq<Position>)
    requires Ascending(s)
    ensures Ascending(ValidCells(s))
    ensures forall x :: x in ValidCells(s) && s != [] ==> !s[|s| - 1].Less(x)
    decreases |s|
  {
    if s != [] {
      var t := s[..|s| - 1];
      assert Ascending(t);
      ValidCellsAscending(t);
      ValidCellsMembers(t);
      var last := s[|s| - 1];
      forall x | x in ValidCells(t)
        ensures !last.Less(x)
      {
        var k :| 0 <= k < |t| && t[k] == x;
        assert s[k] == x;
      }
      if last.IsValid() {
        var v := ValidCells(t) + [last];
        assert v == ValidCells(s);
        forall i, j | 0 <= i < j < |v|
          ensures !v[j].Less(v[i])
        {
          if j == |v| - 1 {
            assert v[i] in ValidCells(t);
          }
        }
      }
    }
  }

  lemma {:induction false} UniqueStrictlyAscending(s: seq<Position>)
    requires Ascending(s)
    ensures StrictlyAscending(Unique(s))
    decreases |s|
  {
    if |s| > 1 {
      var t := s[..|s| - 1];
      assert Ascending(t);
      UniqueStrictlyAscending(t);
      UniqueMembers(t);
      var last := s[|s| - 1];
      if last != s[|s| - 2] {
        var u := Unique(t) + [last];
        assert u == Unique(s);
        assert s[|s| - 2].Less(last) by {
          LessIsStrictTotalOrder(s[|s| - 2], last, last);
        }
        forall i, j | 0 <= i < j < |u|
          ensures u[i].Less(u[j])
        {
          if j == |u| - 1 {
            var x := u[i];
            assert x in t;
            var k :| 0 <= k < |t| && t[k] == x;
            assert !s[|s| - 2].Less(s[k]);
            LessIsStrictTotalOrder(x, s[|s| - 2], last);
          }
        }
      }
    }
  }

  /** A tree that lists its cells in ascending order yields strictly ascending references. */
  lemma ReferencedCellsSorted(s: seq<Position>)
    requires Ascending(s)
    ensures StrictlyAscending(ReferencedCells(s))
  {
    ValidCellsAscending(s);
    UniqueStrictlyAscending(ValidCells(s));
  }
}
