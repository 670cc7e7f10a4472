# Spreadsheet core, modelled in Dafny

This project models the calculation core of a small C++ spreadsheet and
proves properties of it. The core has four parts:

- **Position codec** (`spreadsheet/structures.cpp`). A1-style names are
  converted to and from zero-based `(row, col)` pairs. Columns are
  bijective base 26 (A to Z, AA and on, at most three letters). Rows are
  1-based decimal with at most five digits. Malformed text parses to the
  sentinel `NONE`.
- **Cells and their dependency graph** (`spreadsheet/cell.cpp`,
  `spreadsheet/cell.h`). Content is empty, text or a formula.
  - Each cell records `up`, the cells whose formulas read it, and `down`,
    the cells its formula reads.
  - `Cell::Set` rejects a formula that would close a cycle. Otherwise it
    rewires both edge sets, creating empty cells at unoccupied referenced
    positions.
  - It then clears the formula caches of the cell and of everything above
    it.
- **The sheet** (`spreadsheet/sheet.cpp`, `spreadsheet/sheet.h`). A sparse
  map from positions to cells, plus the printable size. `SetCell` grows the
  size, `ClearCell` recomputes it, and `PrintTexts`/`PrintValues` lay out
  the printable area as a tab-separated grid.
- **Formula boundary logic** (`spreadsheet/formula.cpp`):
  - how a referenced cell's value becomes a number or an error;
  - the filtering of referenced cells;
  - the error tokens.

## Modules

| file | module | contents |
|---|---|---|
| `wrappers.dfy` | `Wrappers` | `Option`, `Result` and `Outcome`. They stand in for null pointers and exceptions. |
| `structures.dfy` | `Structures` | `Position`, `Size`, and the codec as methods with loops (`ToString`, `FromString`, `SplitString`). Each method is proved equal to a pure definition (`PositionText`, `ParsePosition`, `Split`). |
| `formula.dfy` | `Formulas` | `FormulaError`, the argument `Lookup`, `Evaluate`, `ParseFormula`, and `GetReferencedCells` with an in-place `std::unique`. The expression parser, the tree evaluator, `std::stod` and the printing of a double form an `Engine` value, passed as a parameter. |
| `cells.dfy` | `Cells` | Cell content (`Impl`), the cell record, content selection (`MakeImpl`), and the graph of up edges. Also reachability along up edges, ranks that prove the graph acyclic, and a termination measure for the stack walk of `IsCircular`. |
| `printing.dfy` | `Printing` | The grid layout shared by both print functions, and the counts of its newlines and tabs. |
| `sheet.dfy` | `Sheets` | The `Sheet` class and its invariant `Valid()`, every sheet and cell operation, and the lemmas about rewiring, clearing, erasing and evaluating. |

The cells of a sheet live in an arena.
- `data: map<Position, CellId>` is the sheet's `data_`.
- `cells: map<CellId, Cell>` holds each cell's record: content, `up` and `down`.
- A `CellId` stands for a `Cell*`. Ids are never reused, so a destroyed cell and a cell created later at the same position stay distinct, as two heap objects are.
- `Cell::Set`, `Clear`, `IsCircular`, `ClearCache` and `GetValue` change other cells' edge sets and caches. They are therefore methods of `Sheet` that take the cell's id.
- Ghost fields `rank` and `bound` witness that the up graph is acyclic: along every up edge the rank grows.

`Valid()` is the sheet invariant:
- every occupied position is valid and owns exactly one cell;
- the up graph is ranked;
- `down` is the reverse of `up`;
- every formula's down edges go to exactly the cells at its valid referenced positions, and all of those are occupied;
- `size` is the tight bounding size of the occupied positions.

Every public operation keeps `Valid()`.

Where the code and the project's written specification differ, the model follows the code:
- `Cell::Clear` only replaces the content. It does not tear down edges or clear caches.
- A failed `SetCell` keeps the cell it created and the grown size.
- `IsCircular` keeps no visited set.

## Model

| member | source | states |
|---|---|---|
| Structures.Position.Equals | spreadsheet/structures.cpp:30-32 | true exactly when row and column both agree |
| Structures.LessIsStrictTotalOrder | spreadsheet/structures.cpp:34-36 | `operator<` (row first, then column) is irreflexive, asymmetric and transitive, and it orders any two distinct positions |
| Structures.ValidIffNamed | spreadsheet/structures.cpp:38-45 | `IsValid` holds exactly when `ToString` gives a non-empty name |
| Structures.Position.ToString | spreadsheet/structures.cpp:42-56 | the letter loop computes `PositionText`: "" outside 0..16383 on either axis; otherwise the bijective base-26 letters of col + 1, then the decimal of row + 1 |
| Structures.Position.FromString | spreadsheet/structures.cpp:58-92 | the digit check and the column loop compute `ParsePosition`, the definition the lemmas below are about |
| Structures.RoundTrip | spreadsheet/structures.cpp:42-92 | `FromString(ToString(p)) == p` for every valid position |
| Structures.FromStringRejects | spreadsheet/structures.cpp:58-92 | `NONE` for: empty text; a letter part that is empty or longer than 3; a digit part that is empty or longer than 5; a non-digit after the letters; a column above 16383 |
| Structures.FromStringBounds | spreadsheet/structures.cpp:74-91 | every result other than `NONE` has column 0..16383 and row -1..99998; the row is never range-checked |
| Structures.RowZeroIsNotRejected | spreadsheet/structures.cpp:75-76 | "A0" parses to row -1, which is not `NONE` and not valid |
| Structures.SplitString | spreadsheet/structures.cpp:14-27 | returns `Split(str)`: the longest prefix of capital letters, and the rest |
| Structures.UpperPrefixLength | spreadsheet/structures.cpp:17-25 | the prefix it measures is all capitals, and it ends at a non-capital or at the end of the text |
| Structures.UpperPrefixUnique | spreadsheet/structures.cpp:17-25 | any run of capitals that ends at a non-capital or at the end is the one the loop finds |
| Structures.SplitConcat | spreadsheet/structures.cpp:14-27 | splitting capitals followed by text that starts with a non-capital gives back both parts |
| Structures.Size.Equals | spreadsheet/structures.cpp:94-96 | true exactly when rows and columns both agree |
| Structures.BijectiveRoundTrip | spreadsheet/structures.cpp:80-86 | reading back the letters written for a column number gives the number |
| Structures.BijectiveValueAppend | spreadsheet/structures.cpp:83-86 | one more letter multiplies the value by 26 and adds the letter's digit |
| Structures.BijectiveLettersShape | spreadsheet/structures.cpp:47-54 | the letters are capitals; there are none only for 0; numbers up to 26, 702 and 18278 take at most 1, 2 and 3 letters |
| Structures.BijectiveValuePositive | spreadsheet/structures.cpp:80-86 | a non-empty run of capitals denotes at least 1, so the column is at least 0 |
| Structures.DecimalRoundTrip | spreadsheet/structures.cpp:55 | `stoi` of `to_string(n)` is n; the text is non-empty and all digits; below 100000 it has at most 5 digits |
| Structures.DecimalLength | spreadsheet/structures.cpp:63-64 | a number below 10^k prints in at most k digits (k up to 5) |
| Structures.DecimalValueBounds | spreadsheet/structures.cpp:74-76 | k digits (k up to 5) denote 0..10^k - 1 |
| Structures.LetterExamples | spreadsheet/structures.cpp:47-54 | column numbers 1, 26, 27 and 702 are written A, Z, AA and ZZ |
| Structures.LongLetterExamples | spreadsheet/structures.cpp:47-54 | column numbers 703 and 16384 are written AAA and XFD |
| Structures.DecimalExample | spreadsheet/structures.cpp:55 | row number 16384 prints as "16384" |
| Structures.NameExamples | spreadsheet/structures.cpp:42-56 | (0,0), (0,25), (0,26) and (0,701) are named A1, Z1, AA1 and ZZ1 |
| Structures.LongNameExamples | spreadsheet/structures.cpp:42-56 | (0,702) is AAA1; the last valid position is XFD16384 |
| Formulas.FormulaError.Equals | spreadsheet/formula.cpp:101-103 | true exactly when the categories agree |
| Formulas.TokensDistinguishCategories | spreadsheet/formula.cpp:105-115 | different categories have different tokens; every token has the form "#...!" |
| Formulas.StreamedTextConfuses | spreadsheet/formula.cpp:7-9 | as written, `operator<<` prints a Ref error like an Arithmetic one; for Ref and Value it does not print the category's token |
| Formulas.PrintedText | spreadsheet/formula.cpp:7-9 | corrected `operator<<`: a Ref error prints "#REF!", a Value error "#VALUE!", an Arithmetic error "#ARITHM!" |
| Formulas.PrintedTextIdentifies | spreadsheet/formula.cpp:7-9 | corrected printing gives two errors the same text only when they are equal |
| Formulas.ParseFormula | spreadsheet/formula.cpp:87-94 | succeeds exactly when the parser accepts, with the parser's tree; every failure is `FormulaException("")` |
| Formulas.LookupNumbers | spreadsheet/formula.cpp:27-53 | looking up a valid position gives: 0 for an absent cell and for ""; a number unchanged; for text that `stod` consumes entirely, its number |
| Formulas.LookupErrors | spreadsheet/formula.cpp:22-56 | where each error comes from, both directions. Ref: an invalid position or a stored Ref error. Value: a stored Value error, or non-empty text that `stod` rejects or does not consume entirely. Arithmetic: a stored Arithmetic error |
| Formulas.Evaluate | spreadsheet/formula.cpp:58-62 | an error thrown during execution is returned as the result; otherwise the number computed |
| Formulas.GetReferencedCells | spreadsheet/formula.cpp:71-80 | the push-back loop and the in-place unique return `ReferencedCells` of the tree's cells |
| Formulas.UniqueInPlace | spreadsheet/formula.cpp:78 | `std::unique` then `resize`: the kept prefix of the array is `Unique` of its old contents |
| Formulas.ReferencedCellsMembers | spreadsheet/formula.cpp:71-80 | the result holds exactly the valid positions of the tree; all are valid; no two neighbours are equal; it is no longer than the input |
| Formulas.ValidCellsMembers | spreadsheet/formula.cpp:73-77 | the filter keeps exactly the valid positions and is no longer than its input |
| Formulas.ValidCellsAppend | spreadsheet/formula.cpp:73-77 | the filter keeps input order: its result on s + t is its result on s followed by its result on t |
| Formulas.ValidCellsAppendOne | spreadsheet/formula.cpp:73-77 | one loop turn: a position pushed after s is kept, at the end, exactly when it is valid |
| Formulas.UniqueMembers | spreadsheet/formula.cpp:78 | `std::unique` keeps every value and the last element, and leaves no two equal neighbours |
| Formulas.UniqueOfDistinctNeighbours | spreadsheet/formula.cpp:78 | `std::unique` leaves a sequence without equal neighbours unchanged, so it removes nothing but repeats of the predecessor |
| Formulas.UniqueAppendOne | spreadsheet/formula.cpp:78 | one element after s is dropped exactly when it equals the last element of s, and otherwise appended |
| Formulas.UniqueAppend | spreadsheet/formula.cpp:78 | `std::unique` keeps order: on s + t it gives its result on s followed by its result on t, minus the first element of t's result when it repeats the last element of s |
| Formulas.ReferencedCellsSorted | spreadsheet/formula.cpp:71-80 | when the tree lists its cells in ascending order, the result is strictly ascending, so free of repeats |
| Cells.MakeImpl | spreadsheet/cell.cpp:130-141 | "" gives empty content. Text of length 1, or not starting with '=', gives text content with the same text. A longer "=..." gives formula content with the parsed tree and no cache. It fails, with a `FormulaException`, exactly when the parser rejects the expression |
| Cells.TextValue | spreadsheet/cell.cpp:38-45 | a text cell's value drops one leading escape sign and is otherwise the text |
| Cells.EscapedText | spreadsheet/cell.cpp:36-53 | a text starting with the escape sign is stored verbatim and shows the rest of it |
| Cells.LoneFormulaSignIsText | spreadsheet/cell.cpp:133-134 | "=" alone is text, not a formula |
| Cells.FormulaText | spreadsheet/cell.cpp:78-80 | a formula cell's text is '=' followed by the printed expression |
| Cells.References | spreadsheet/cell.cpp:86-88 | a formula references exactly the valid positions its tree mentions; empty and text content reference nothing |
| Cells.ClearedCache | spreadsheet/cell.cpp:82-84 | forgets a formula's cache and keeps its tree; other content is unchanged |
| Cells.ReachesRanked | spreadsheet/cell.cpp:109-118 | along a path of up edges the rank strictly grows, so no cell reaches itself through a cycle |
| Cells.ReachesFromLeaf | spreadsheet/cell.cpp:108-118 | a cell that no formula reads reaches only itself |
| Cells.LiftRanks | spreadsheet/cell.cpp:136-157 | raising the ranks of everything c reaches keeps the graph ranked and puts c above every cell it does not reach |
| Cells.StackWeightPush | spreadsheet/cell.cpp:115-117 | pushing a cell adds its tree of up paths to the stack's weight, the measure that makes the walk terminate |
| Sheets.HashPairInjective | spreadsheet/sheet.h:32-35 | `row * 16384 + col` separates any two keys whose columns lie in 0..16383 |
| Sheets.FormulaReadsArguments | spreadsheet/cell.cpp:64-76 | evaluating a formula through its down edges agrees with looking its positions up in the sheet |
| Sheets.NewCellVerdict | spreadsheet/cell.cpp:96-120 | for a cell that nothing reads, content is circular exactly when it references the cell's own position |
| Sheets.OccupiedVerdict | spreadsheet/sheet.cpp:8-15 | the verdict of `Set` on the cell `SetCell` found or created is `SetCell`'s verdict |
| Sheets.EmptiedIntro | spreadsheet/cell.cpp:130-159 | `Set("")` adds no position and no cell; c becomes empty with no down edges and keeps its readers |
| Sheets.EmptyRewiring | spreadsheet/cell.cpp:144-157 | rewiring a cell to empty content only cuts it off from the cells it read |
| Sheets.EraseKeeps | spreadsheet/sheet.cpp:26-28 | erasing a cell with no edges keeps ownership, ranks, symmetry and links |
| Sheets.ErasingReadCellBreaksSheet | spreadsheet/sheet.cpp:24-30 | erasing a cell that a formula still reads leaves that formula linked to no cell and its edges asymmetric |
| Sheets.PrintedShape | spreadsheet/sheet.cpp:60-73 | with no newline or tab in any field, a grid of `rows` rows has exactly `rows` newlines and `rows * (cols - 1)` tabs |
| Sheets.InstalledCells | spreadsheet/cell.cpp:130-159 | cell by cell, after a successful `Set`: c holds the new content, reads exactly the cells at its references, and each of them lists c. No other cell lists c. New cells are empty. Caches above c are cleared. Nothing else changes |
| Sheets.InstalledIntro | spreadsheet/cell.cpp:144-158 | the rewiring followed by the cache clearing is the state `Set` promises |
| Sheets.RewiredExact | spreadsheet/cell.cpp:149-157 | once every referenced position holds a cell, the rewiring determines the new arena |
| Sheets.LinkRewires | spreadsheet/cell.cpp:144-157 | erasing c from its old dependencies' up sets and then linking the new ones is the rewiring `Set` promises |
| Sheets.LinkStepOld | spreadsheet/cell.cpp:149-157 | a turn of the linking loop at an occupied position keeps the loop's invariant |
| Sheets.LinkStepNew | spreadsheet/cell.cpp:149-157 | a turn of the linking loop that creates an empty cell keeps the loop's invariant |
| Sheets.RewiredTargets | spreadsheet/cell.cpp:149-157 | every cell c reads after rewiring is an old cell of lower rank or a new cell of rank 0 |
| Sheets.RewiredAcyclic | spreadsheet/cell.cpp:144-157 | rewiring c to cells of lower rank keeps the up graph ranked |
| Sheets.RewiredSymmetric | spreadsheet/cell.cpp:144-157 | rewiring keeps `down` the reverse of `up` |
| Sheets.RewiredLinked | spreadsheet/cell.cpp:144-157 | after rewiring, every formula's references are occupied and its down edges go to their cells |
| Sheets.RewiredValid | spreadsheet/cell.cpp:144-157 | rewiring c to cells of lower rank keeps the graph ranked, symmetric and linked |
| Sheets.ClimbFinds | spreadsheet/cell.cpp:108-119 | the stack walk up from c returns true exactly when c reaches one of the target cells through up edges |
| Sheets.ClearStep | spreadsheet/cell.cpp:178-180 | clearing above one more direct reader adds it to the cells already cleared from |
| Sheets.ClearEnd | spreadsheet/cell.cpp:176-181 | clearing c and above each of its direct readers clears c and everything above it |
| Sheets.UpGraphIgnoresContent | spreadsheet/cell.cpp:161-163 | replacing a cell's content leaves the up graph as it is |
| Sheets.SymmetricIgnoresContent | spreadsheet/cell.cpp:161-163 | replacing a cell's content keeps the edges symmetric |
| Sheets.SameShapeKeeps | spreadsheet/cell.cpp:66-68 | caches affect neither the edges, nor the links, nor the values |
| Sheets.SameShapeValid | spreadsheet/cell.cpp:176-181 | the invariant on edges and links survives any change of caches |
| Sheets.SameShapeAfterClear | spreadsheet/cell.cpp:176-181 | clearing caches changes only caches |
| Sheets.FreshCellKeeps | spreadsheet/sheet.cpp:10-12 | a new empty cell with no edges, at an unoccupied position, keeps the graph ranked, symmetric and linked |
| Sheets.GrownTight | spreadsheet/sheet.cpp:75-78 | growing a tight size by a newly occupied valid position keeps it tight |
| Sheets.Sheet.constructor | spreadsheet/sheet.cpp:93-95 | a new sheet is empty, with size (0, 0), and valid |
| Sheets.Sheet.GetConcreteCell | spreadsheet/sheet.cpp:97-111 | an invalid position, and only an invalid one, throws `InvalidPositionException`; an unoccupied position gives null; otherwise the cell there |
| Sheets.Sheet.GetCell | spreadsheet/sheet.cpp:17-22 | an invalid position, and only that, throws `InvalidPositionException`. An unoccupied valid position gives null, an occupied one its cell |
| Sheets.Sheet.GetPrintableSize | spreadsheet/sheet.cpp:32-34 | the size covers every occupied position; the last row and the last column are occupied; it has no rows exactly when the sheet is empty |
| Sheets.Sheet.NoColumnsNoRows | spreadsheet/sheet.cpp:80-91 | a printable area with no columns has no rows |
| Sheets.Sheet.ValueOfContent | spreadsheet/cell.cpp:22-76 | an empty cell's value is "", a text cell's is its text value, a formula's is `Evaluate` of its tree against the current values of the cells it references; no cache is read |
| Sheets.Sheet.IncreaseSize | spreadsheet/sheet.cpp:75-78 | each dimension becomes the larger of itself and the position's coordinate + 1 |
| Sheets.Sheet.DecreaseSize | spreadsheet/sheet.cpp:80-91 | the size becomes the tight bound of the occupied positions ((0, 0) when none) |
| Sheets.Sheet.IsCircular | spreadsheet/cell.cpp:96-120 | true exactly when c, or a cell above c, is the cell at one of the positions the content references; so false when it references nothing, and true for a self-reference |
| Sheets.Sheet.ClearCache | spreadsheet/cell.cpp:176-181 | the caches of c and of everything above c are dropped; nothing else changes |
| Sheets.Sheet.ClearFrom | spreadsheet/cell.cpp:178-180 | one turn of the loop over c's readers adds that reader to the cells cleared from |
| Sheets.Sheet.ClearAbove | spreadsheet/cell.cpp:176-181 | `ClearCache` keeps the sheet valid |
| Sheets.Sheet.GetValue | spreadsheet/cell.cpp:64-76 | returns the cell's value as it was; fills the cache only when it is empty; the sheet stays valid and nothing but caches changes |
| Sheets.Sheet.Clear | spreadsheet/cell.cpp:161-163 | the content becomes empty; edges, other cells and validity stay |
| Sheets.Sheet.CreateCell | spreadsheet/sheet.cpp:11 | a fresh id at pos, holding an empty cell with no edges |
| Sheets.Sheet.Lift | spreadsheet/cell.cpp:136-140 | when content is not circular, ranks can be raised so that c ranks above every cell it will read |
| Sheets.Sheet.Unlink | spreadsheet/cell.cpp:144-148 | c is erased from the up set of every cell; its own down set becomes empty |
| Sheets.Sheet.Vivify | spreadsheet/cell.cpp:151-153 | `sheet_.SetCell(pos, "")` at an unoccupied position: a new empty cell there, and a grown size |
| Sheets.Sheet.CellFor | spreadsheet/cell.cpp:150-154 | the cell at pos, created empty when pos is unoccupied; the size grows by pos |
| Sheets.Sheet.LinkOne | spreadsheet/cell.cpp:150-156 | the cell at pos gains c in its up set and c gains it as a down edge |
| Sheets.Sheet.LinkNext | spreadsheet/cell.cpp:149-157 | one turn of the linking loop extends the links made so far by one position |
| Sheets.Sheet.Link | spreadsheet/cell.cpp:149-157 | after the loop, c's down edges go to exactly the cells at the given positions, each listing c, with new cells for unoccupied positions |
| Sheets.Sheet.Replace | spreadsheet/cell.cpp:140-148 | c takes the new content and lets go of the cells it read |
| Sheets.Sheet.Detach | spreadsheet/cell.cpp:140-148 | like `Replace`, and the ranks are lifted so c ranks above every cell it will read |
| Sheets.Sheet.Connect | spreadsheet/cell.cpp:149-157 | after `Detach`, linking c gives the promised rewiring; old cells keep their ranks and new cells get rank 0 |
| Sheets.Sheet.Attach | spreadsheet/cell.cpp:148-157 | `Connect` leaves a valid sheet with exactly the promised arena |
| Sheets.Sheet.Rewire | spreadsheet/cell.cpp:140-157 | the new content and the rewiring, keeping the sheet valid |
| Sheets.Sheet.Refresh | spreadsheet/cell.cpp:158 | clearing caches after the rewiring gives the state `Set` promises |
| Sheets.Sheet.Install | spreadsheet/cell.cpp:140-158 | committing non-circular content: rewiring, then cache clearing, keeping the sheet valid |
| Sheets.Sheet.Set | spreadsheet/cell.cpp:130-159 | the result is the verdict: a parse failure, a cycle, or success. A failure changes nothing. Success installs the content. Validity is kept |
| Sheets.Sheet.SetCell | spreadsheet/sheet.cpp:8-15 | an invalid position throws and changes nothing. Otherwise the cell at pos, created if absent, gets the text, with `SetCell`'s verdict. After a failure the created cell and the grown size remain. Validity is kept |
| Sheets.Sheet.SetEmpty | spreadsheet/cell.cpp:130-132 | `Set("")`: c becomes empty, reads nothing and keeps its readers; no position is added |
| Sheets.Sheet.Erase | spreadsheet/sheet.cpp:27 | a cell with no edges and its position are removed, and the invariant on edges holds |
| Sheets.Sheet.EraseUnread | spreadsheet/sheet.cpp:26-28 | the emptied cell is erased when nothing reads it, and kept otherwise |
| Sheets.Sheet.Empty | spreadsheet/sheet.cpp:26-28 | the corrected removal of the cell at pos |
| Sheets.Sheet.ClearCell | spreadsheet/sheet.cpp:24-30 | corrected `ClearCell`: an invalid position throws. An unoccupied one changes nothing. An occupied cell is emptied, and erased only when nothing reads it. The size is then tight. Validity is kept |
| Sheets.Sheet.ClearCellAsWritten | spreadsheet/sheet.cpp:24-30 | `ClearCell` as written: the position and its cell are removed whatever reads it, and the size becomes tight |
| Sheets.Sheet.Occupy | spreadsheet/sheet.cpp:10-13 | a valid position gets a cell (created empty if absent), and the size grows by it |
| Sheets.Sheet.PrintTexts | spreadsheet/sheet.cpp:60-73 | the output is the grid of the cells' texts. An unoccupied position gives an empty field. With no newline or tab in any text, there are `rows` newlines and `cols - 1` tabs per row |
| Sheets.Sheet.PrintValues | spreadsheet/sheet.cpp:36-59 | the same layout with each cell's value as it was before the call. Only caches change. The same newline and tab counts hold |
| Sheets.Sheet.PrintValueGrid | spreadsheet/sheet.cpp:37-58 | the rows loop writes the grid of the given values and leaves the sheet valid, with the same cache-free arena |
| Sheets.Sheet.PrintValueRows | spreadsheet/sheet.cpp:37-58 | every row, in order, as the grid of the given values |
| Sheets.Sheet.PrintValueLine | spreadsheet/sheet.cpp:38-57 | one row: each field followed by a tab, the last by a newline |
| Sheets.Sheet.PrintValueAt | spreadsheet/sheet.cpp:39-50 | the field of one position: its value, or nothing when unoccupied |
| Printing.GridLines | spreadsheet/sheet.cpp:60-73 | with no newline in any field, k printed rows hold exactly k newlines |
| Printing.GridTabs | spreadsheet/sheet.cpp:60-73 | with no tab in any field, each printed row holds cols - 1 tabs |
| Printing.LineCount | spreadsheet/sheet.cpp:62-71 | the newlines and tabs of the first j fields of a row and their separators |

## Left out

- Formula parsing, execution and expression printing (`FormulaAST`) are not part of this model. The parser, the evaluator of a tree, `std::stod` and the printing of a double are the fields of an `Engine` value. A parsed formula is an `Ast`: the cells it mentions and its printed expression.
- Floating point: numbers are `real`. `std::stod` is the engine's `stod`, which returns the number read and how many characters it used. `PrintValues` writes a number with the engine's `show`, so no `ostream` formatting is modelled.
- Streams: both print functions return the string they would write.
- `unique_ptr` ownership, destructors and the `Cell::sheet_` back-reference: a sheet's cells are its arena, and a cell id is its identity. `CreateSheet` is the `Sheet` constructor.
- C++ access control: Dafny has no private members, so the fact that only `SetCell` and `ClearCell` change the size (through the private `IncreaseSize`/`DecreaseSize`) is not expressed.
- The hashing internals of `unordered_map`/`unordered_set` are maps and sets. `HashPair` is computed on unbounded integers. The `size_t` conversion would matter only for negative keys, and every stored key is valid.
- The cost of `IsCircular`: with no visited set it can take exponential time on shared sub-graphs. Only its result and its termination are modelled, the latter by a ghost measure on the stack.
- Integer widths: positions are unbounded integers. No arithmetic in the core overflows `int` for the positions it handles: `ToString` refuses coordinates above 16383, and `FromString` reads at most 5 digits and 3 letters.
- The `value_` that the `FormulaImpl` constructor stores is never read (`GetValue` is overridden), so it is not modelled.
- Sheets.Sheet.GetValue: fills the cache of the cell asked for only. In the code, the nested `GetValue` calls that `Formula::Evaluate` makes on referenced formula cells also fill their own empty caches. Caches are never read, so no value differs.
- Sheets.Sheet.PrintValues: writes a `FormulaError` with its own token (`PrintedText`), the corrected `operator<<` (see Findings). The caches it leaves are stated only up to `Skeleton`, that is, apart from caches.
- Sheets.Sheet.ClearCell: does not always remove the entry as the code and the documented behaviour do. When a formula still reads the cell, the cell stays at its position with empty content, so `GetCell` then returns that empty cell instead of null, and the printable size does not shrink past it. Erasing such a cell is what breaks the sheet (see Findings); repairing every reader instead would change what those formulas refer to, so this model keeps the cell.

## Findings

| source | as written | input that shows it | evidently intended | confidence | as-written member | corrected member |
|---|---|---|---|---|---|---|
| spreadsheet/formula.cpp:7-9 | `operator<<` writes "#ARITHM!" for every `FormulaError`, so `PrintValues` shows a #REF! or #VALUE! error as #ARITHM! | A1 = "abc" and B1 = "=A1": B1's value is a Value error, and `PrintValues` prints it as #ARITHM! | each category printed with its own token, `FormulaError::ToString` | not executed | Formulas.StreamedTextConfuses | Formulas.PrintedTextIdentifies |
| spreadsheet/sheet.cpp:24-30 | `ClearCell` destroys the cell even when formulas still read it. Their `down` sets, and the `up` sets of the cells it read, keep a pointer to a destroyed cell | A1 = "=B1", then `ClearCell(B1)`, then B1 = "=A1". The new B1 has no readers, so `IsCircular` finds no cycle, and evaluating A1 recurses without end | no formula is left pointing at a destroyed cell. The fix chosen here empties the cell with `Set("")` and erases it only when no formula reads it; a read cell stays at its position as an empty cell | not executed | Sheets.Sheet.ClearCellAsWritten, Sheets.ErasingReadCellBreaksSheet | Sheets.Sheet.ClearCell |
