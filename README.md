# Spreadsheet cell and dependency engine in Dafny

This project models the core of a small in-memory spreadsheet engine, written in C++ (`Sheet`, `Cell`, `Formula`):

- **Cell content.** A cell holds exactly one of Empty, Text or Formula. `Cell::Set` classifies the text it is given, and each kind of content derives the cell's text, value and referenced positions.
- **Dependency graph.** Each cell records the cells it reads (its precedents) and the cells that read it (its dependents). `Cell::Set` rewires both sets symmetrically. Any referenced cell that does not exist yet is created as an empty cell.
- **Cycle check and cache invalidation.** `Cell::IsCircularDependency` is a worklist search with a visited set. `Cell::ClearCache` drops cached values, recursing into dependents.
- **Grid.** `Sheet` keeps a grid of optional cell slots that only ever grows. It provides `SetCell`, both `GetCell` overloads, `GetConcreteCell`, `ClearCell` and `GetPrintableSize`.
- **Formula bridge.** This covers the resolver that `Formula::Evaluate` hands to the expression evaluator, the conversion of a thrown `FormulaError` into a result, the filtering in `Formula::GetReferencedCells`, and the printing of a `FormulaError`.

The project has four modules:

- `Common` (`common.dfy`): positions, cell values and error categories.
- `Formulas` (`formula.dfy`): the formula bridge, written as pure functions.
- `Cells` (`cell.dfy`): the cell record, the content functions, grid growth, and the dependency graph with its reachability relation. It also gives `Cell::Set` and `Sheet::SetCell` as functions of the whole state (`CellSet`, `SheetSet`) and proves lemmas about them.
- `Sheets` (`sheet.dfy`): the `Sheet` class, whose methods change the state in place.

In the class, a cell is identified by its position. The grid is two fields:

- `widths`: the number of rows, and the slot count of each row;
- `slots`: a map from position to cell, holding the non-null slots.

The mutating operations of `Cell` become `Sheet` methods that take the cell's position.

- `Set` and `SetCell` are proved equal to the functions `CellSet` and `SheetSet` in `Cells`. The lemmas about those functions carry the graph properties.
- The loops inside `Set` are proved against the rewiring functions `Unhooked` and `Rewired`.
- `Clear`, `ClearCell` and `ClearCache` state their new state directly, in their own contracts.

The model follows what the code does:

- **The cycle check follows the wrong edges.** It starts at the cell being edited and follows that cell's *existing* precedents. As a result it rejects a self-reference. It also rejects a new formula that keeps one of the cell's current references (`KeptReferenceIsCircular`). But it accepts A1=`=A2` followed by A2=`=A1`, which leaves a cycle in the graph (`UndetectedCycle`). No lemma here claims that the graph stays acyclic.
- **The cache is never filled.** `Cell::GetValue` neither reads nor writes the cache.
  - `ClearCache` is still modelled with its recursion, over a cache field that can hold a value.
  - Every operation that changes the sheet keeps `NoCachedValues`, and a new sheet has it. With no cached values, `ClearCache` changes nothing.
  - In that state, `Set` and `SetCell` equal `CellSet` and `SheetSet` exactly.
- **`GetCell` can dereference a null slot.** `Sheet::GetCell` calls `GetText` on a slot that lies inside the grid but was never filled. This is the `NullDeref` outcome of `CellAt`, and `ReadAt` treats it as a crash.
- **Only some `std::stod` failures are caught.** `std::invalid_argument` and `std::out_of_range` from `std::stod` are not `FormulaError`s, so they escape `Formula::Evaluate` (`Escaped` / `Thrown`). Only a string with trailing characters after a number becomes a `Value` error.
- **References are filtered, not normalized.** `GetReferencedCells` drops the invalid positions and keeps the parser's order and repeats. It does not sort or de-duplicate the list.

## Model

| member | source | states |
|---|---|---|
| Formulas.ErrorTextIgnoresCategory | table/formula.cpp:12-14 | every error category prints as `#DIV/0!` |
| Formulas.Resolve | table/formula.cpp:42-83 | an invalid position raises `Ref`; no cell, or an empty string, resolves to 0; a number resolves to itself; an error value is raised with its category; a non-empty string goes through `stod`: partial consumption raises `Value`, full consumption gives the number, and a `stod` exception escapes; escaping happens only for a valid position with a cell |
| Formulas.Evaluate | table/formula.cpp:39-90 | the result is the number exactly when execution returns one; it is `Failed(c)` exactly when execution raises a `FormulaError` of category `c`; it is thrown exactly when some other exception escapes |
| Formulas.ValidOnlyMembers | table/formula.cpp:99-109 | a position is in the filtered list iff it is in the parser's list and valid; the filtered list is no longer than the input |
| Formulas.ValidOnlyAppend | table/formula.cpp:99-109 | filtering distributes over concatenation, so order is kept and nothing is added |
| Formulas.ValidOnlyKeepsValid | table/formula.cpp:99-109 | a list of valid positions is returned unchanged |
| Formulas.GetReferencedCells | table/formula.cpp:99-109 | the push_back loop returns exactly the order-preserving filter of the valid positions |
| Cells.Classify | cell.cpp:19-40 | empty text gives Empty; text of length ≥ 2 starting with `=` gives a Formula, or a syntax failure when the parser rejects the rest; all other text, including a lone `=`, gives Text holding it unchanged |
| Cells.NewCell | cell.cpp:11-15 | a new cell is Empty, has no precedents and no dependents, and holds no cached value |
| Cells.ContentText | cell.cpp:73-75 | Empty's text is `""`; Text's is the stored text; a formula's is `=` followed by the printed expression; only Empty and the empty Text have empty text |
| Cells.ContentRefs | cell.cpp:137-139 | every position a content reports is valid |
| Cells.ContentValue | cell.cpp:96-133 | Empty is `""`; a Text value is the text with exactly one leading escape character removed, if there is one; a formula's value is missing exactly when evaluation throws, and is never a string |
| Cells.ClassifyTextRoundTrip | cell.cpp:19-40 | setting non-formula text and reading its text back gives the same text, with no references |
| Cells.FormulaTextNonEmpty | cell.cpp:134-136 | a formula's text is never empty and starts with `=` |
| Cells.Grow | table/sheet.cpp:18-19 | the row count becomes max(old count, `row+1`); the position's row becomes exactly max(old width, `col+1`) slots wide (0 slots before, for a new row); every other row keeps its width, and new rows are empty; nothing shrinks; a position already in bounds leaves the grid unchanged |
| Cells.GrowAll | cell.cpp:49-56 | materializing a list of references grows the grid to hold each of them and never shrinks it |
| Cells.ClosedSetHoldsReachable | cell.cpp:158-175 | a set that holds the start and is closed under precedent edges holds every cell reachable from the start |
| Cells.SelfReferenceIsCircular | cell.cpp:156-167 | a formula referencing its own cell is rejected |
| Cells.KeptReferenceIsCircular | cell.cpp:156-173 | a formula that keeps one of the cell's current precedents is rejected |
| Cells.UndetectedCycle | cell.cpp:169-173 | with A1 reading A2, setting A2 to read A1 passes the check on a well-formed sheet, and afterwards A1 and A2 reach each other |
| Cells.UndetectedCycleAccepted | cell.cpp:19-64 | on the sheet where A1 reads A2, `CellSet` of `=A1` at A2 succeeds, and afterwards A1 and A2 reach each other |
| Cells.RewiredWellFormed | cell.cpp:43-60 | rewiring keeps every cell placed in the grid, every edge ending at an existing cell, and precedents and dependents symmetric |
| Cells.RewiredEdges | cell.cpp:43-60 | after rewiring, the cells are the old ones plus the referenced ones; the cell has the new content and exactly the referenced precedents; it is a dependent of each referenced cell and of no other old cell; new cells are Empty with no precedents; other cells keep their content and precedents |
| Cells.CellSet | cell.cpp:19-64 | the status is success, a syntax error or a circular dependency; a rejection leaves grid and cells unchanged; the grid never shrinks and no cell disappears; a sheet without cached values stays without them |
| Cells.SheetSet | table/sheet.cpp:15-30 | the status is an invalid position iff the position is invalid; the grid never shrinks and no cell disappears; a valid position ends up holding a cell; a sheet without cached values stays without them |
| Cells.CellSetRejectedUnchanged | cell.cpp:26-34 | a rejected `Set` changes neither the grid nor any cell; it fails with a syntax error iff the formula does not parse, and with a circular dependency iff the check finds one |
| Cells.CellSetWellFormed | cell.cpp:19-64 | `Set` keeps the graph well formed, whether it succeeds or fails |
| Cells.CellSetEdges | cell.cpp:43-60 | a successful `Set` installs the content and exactly the referenced precedents, is a dependent of every referenced cell, leaves each old precedent it no longer references, creates missing targets as Empty, and changes no other cell's content or precedents |
| Cells.FormulaSetDropsOldPrecedents | cell.cpp:141-173 | a successful formula `Set` references neither its own cell nor any of its current precedents |
| Cells.SheetSetGrows | table/sheet.cpp:15-30 | `SetCell` never shrinks the grid; on a valid position the grid holds the position and the slot holds a cell; on an invalid position nothing changes |
| Cells.SheetSetRejectedMaterializes | table/sheet.cpp:18-25 | a rejected `SetCell` still leaves the grown grid and a created empty cell |
| Sheets.ReadAt | table/formula.cpp:48-54 | reading a referenced cell gives "no cell" exactly when `GetCell` returns null; a read value comes from a cell with non-empty text; a text cell is read as its value whenever fuel remains |
| Sheets.VisitDecreases | cell.cpp:158-175 | each turn of the worklist loop either marks a new cell visited or consumes a stack entry that was already visited, so the loop terminates |
| Sheets.VisitKeepsFrontier | cell.cpp:163-173 | after a visit, every precedent of a visited cell is visited or still on the stack |
| Sheets.UnhookedAll | cell.cpp:43-47 | by symmetry, removing the cell from its old precedents' dependent sets removes it from every dependent set |
| Sheets.RewiredAdd | cell.cpp:49-60 | adding one reference (creating its cell if needed, then adding both edge directions) extends the rewiring by that reference |
| Sheets.ClearedKeepsGraph | cell.cpp:80-90 | dropping caches keeps every cell's content and edges and never adds a cached value |
| Sheets.DropOneCache | cell.cpp:81-83 | resetting one cell's cache removes exactly that cell from the cached ones, and changes nothing else |
| Sheets.ReadersTrans | cell.cpp:85-87 | changes made by the recursive call on a dependent `d` are changes to cells that read the cell itself, through `d` |
| Sheets.SettledTrans | cell.cpp:85-87 | a cleared cell whose dependents had no cached value keeps that property while the recursion goes on |
| Sheets.ClearedAlongDependents | cell.cpp:80-90 | when the first cell of a chain of cached dependents is cleared, every cell of the chain ends up cleared: the recursion is transitive |
| Sheets.ClearedNothing | cell.cpp:70-90 | when no cell holds a cached value, dropping caches changes nothing |
| Sheets.Sheet.constructor | table/sheet.cpp:154-156 | a new sheet has no rows and no cells, is well formed, and holds no cached value |
| Sheets.Sheet.GetCell | table/sheet.cpp:32-61 | an invalid position is an error; on a well-formed sheet, the cell is returned iff the position is valid and the cell's text is non-empty; an in-bounds null slot is dereferenced |
| Sheets.Sheet.GetConcreteCell | table/sheet.cpp:63-75 | an invalid position is an error; the slot's cell is returned iff the position is valid and the slot is filled; a null slot never crashes |
| Sheets.Sheet.GetCellIsConcrete | table/sheet.cpp:32-75 | a cell that `GetCell` returns is the one `GetConcreteCell` returns; a cell that only `GetConcreteCell` returns has empty text |
| Sheets.Sheet.GetValue | cell.cpp:70-72 | a non-formula cell's value does not depend on the sheet; a string value never comes from a formula |
| Sheets.Sheet.Materialize | table/sheet.cpp:18-23 | grows the grid for the position and creates a cell only in an empty slot, keeping the sheet well formed and free of cached values |
| Sheets.Sheet.SetCell | table/sheet.cpp:15-30 | the status and the grid are those of `SheetSet`, and the cells equal its cells up to dropped caches; on a sheet without cached values they equal its cells exactly, and no cached value appears; the sheet stays well formed |
| Sheets.Sheet.Set | cell.cpp:19-64 | the status and the grid are those of `CellSet`, and the cells equal its cells up to dropped caches; on a sheet without cached values they equal its cells exactly; on success the cell's cache is empty; the sheet stays well formed |
| Sheets.Sheet.Unhook | cell.cpp:43-47 | the cell takes the new content, leaves the dependent set of each old precedent, and its precedents are cleared |
| Sheets.Sheet.Hook | cell.cpp:49-60 | after the loop, the grid has grown for every reference and the cells equal the rewiring by all references |
| Sheets.Sheet.HookOne | cell.cpp:51-59 | one reference: the grid grows for it, and the cells equal the rewiring extended by it |
| Sheets.Sheet.Clear | cell.cpp:66-68 | only the content becomes Empty; edges, cache and grid are unchanged |
| Sheets.Sheet.ClearCell | table/sheet.cpp:77-91 | an invalid position is an error and changes nothing; otherwise a filled slot's content becomes Empty, and nothing else changes |
| Sheets.Sheet.ClearCache | cell.cpp:80-90 | an empty cache is a no-op; otherwise the cell's cache and every dependent's cache become empty; only caches change, and the grid and graph stay as they were; every changed cell reads the cell, directly or transitively (upper bound); every cell whose cache was dropped has only dependents without a cached value, so the clearing is transitive (lower bound, see `ClearedAlongDependents`) |
| Sheets.Sheet.IsCircularDependency | cell.cpp:141-180 | the answer is true iff the content references something and some cell reachable from this one along existing precedent edges (the cell itself included) is referenced |
| Sheets.Sheet.Search | cell.cpp:153-175 | the worklist loop finds a target iff some target is reachable from the start |
| Sheets.Sheet.ConcreteCells | cell.cpp:147-151 | the collected targets are exactly the existing cells at the referenced positions |
| Sheets.Sheet.PushUnvisited | cell.cpp:169-173 | the stack grows by exactly the unvisited precedents of the current cell, each reachable from the start |
| Sheets.Sheet.GetPrintableSize | table/sheet.cpp:93-110 | every cell with non-empty text lies inside the rectangle; some such cell lies on the last row and some on the last column, so no smaller rectangle holds them all; the result is (0, 0) exactly when there is no such cell |

## Left out

- `Sheet::PrintValues` and `Sheet::PrintTexts`: stream output and the formatting of doubles.
- The expression parser, `FormulaAST::Execute` and `PrintFormula` are external code, and their source is not part of this model.
  - A parsed formula is an `Ast` exposing its printed text and its list of positions.
  - Parsing is the parameter `parse`, and execution the parameter `execute`.
- `std::stod` is the parameter `stod`. It returns a number with a consumed length, or one of its two exceptions.
- Doubles are modelled as `real`. No arithmetic is done on them.
- `Position::IsValid`: the addressing code is not part of this model. Validity is taken to be 0 ≤ row, col < 16384.
- The `CreateSheet` factory and `unique_ptr` ownership are not modelled. The sheet is a class with a constructor. A cell's reference to its owning sheet is implicit, because the cell is addressed through that sheet.
- C++ exceptions become results. `InvalidPositionException`, `FormulaException` and `CircularDependencyException` become `Status` values. Other escaping exceptions become `Escaped`, `Thrown` or `Crashed`.
- Sheets.ReadAt: reading a formula cell through the sheet recurses with no bound in the source. This includes recursion around a cycle that the check let through. Here a `fuel` parameter bounds the recursion, and running out of fuel counts as a crash.
- Sheets.Sheet.GetValue: for a formula cell, the contract states only what `ContentValue` and `Evaluate` say about the result. A numeric value is not computed, because evaluation is a parameter.
- Sheets.Sheet.Set: on a sheet that holds cached values, the cells after the edit equal those of `CellSet` only up to dropped caches. `ClearCache` bounds which caches are dropped from above and below. No modelled operation ever fills a cache, so on every sheet those operations build, the equality is exact.
- Sheets.Sheet.IsCircularDependency: requires only that every edge ends at an existing cell. The cycle check needs nothing more of the sheet.
- The cache is never filled, because `Cell::GetValue` ignores it. So no operation in the model stores a value in it. Setting a cache is left out because no code does it. The state `NoCachedValues` is kept by the constructor, `Materialize`, `Set` and `SetCell`. `Clear` and `ClearCell` state their whole new state, which keeps every cache as it was.
- The graph is not proved acyclic, because the cycle check does not guarantee it. See `UndetectedCycle`.
