/**
 * Cells and the dependency graph (cell.cpp, table/cell.h).
 *
 * A cell is identified by its position in the owning sheet; its state is the
 * record `Cell`: the content variant (the `impl_` of the source), the
 * positions of the cells it reads (`cells_used_for_calculation_`), the
 * positions of the cells that read it (`cells_using_this_cell_`), and the
 * value cache. The whole sheet's cells form a map from positions to cells;
 * this module holds the pure definitions the `Sheet` class is proved against.
 */
module Cells {
  import opened Common
  import opened Formulas

  const FormulaSign: char := '='
  const EscapeSign: char := '\''

  /** The three implementations of `Cell::Impl`; a cell holds exactly one. */
  datatype Content = Empty | Text(text: string) | Formula(ast: Ast)

  datatype Cell = Cell(content: Content, precedents: set<Pos>, dependents: set<Pos>, cache: Option<CellValue>)

  /** A freshly constructed cell: Empty, with no edges and no cached value. */
  function NewCell(): (r: Cell)
    ensures r.content.Empty? && r.precedents == {} && r.dependents == {} && r.cache.None?
  {
    Cell(Empty, {}, {}, None)
  }

  /** Outcome of an edit; the last three are the exceptions of the source. */
  datatype Status = Done | InvalidPosition | FormulaSyntax | CircularDependency

  /**
   * How `Cell::Set` classifies its text, including the construction of the
   * formula, whose parse failures surface as `FormulaException` (None here).
   */
  function Classify(text: string, parse: string -> Option<Ast>): (r: Option<Content>)
    ensures text == "" ==> r == Some(Empty)
    ensures r.None? <==> |text| >= 2 && text[0] == FormulaSign && parse(text[1..]).None?
    ensures r.Some? && r.value.Formula? <==> |text| >= 2 && text[0] == FormulaSign && parse(text[1..]).Some?
    ensures r.Some? && r.value.Formula? ==> parse(text[1..]) == Some(r.value.ast)
    ensures text != "" && !(|text| >= 2 && text[0] == FormulaSign) ==> r == Some(Text(text))
  {
    if |text| == 0 then Some(Empty)
    else if text[0] == FormulaSign && |text| >= 2 then
      match parse(text[1..])
      case None => None
      case Some(ast) => Some(Formula(ast))
    else Some(Text(text))
  }

  /** `GetText` of each implementation. */
  function ContentText(c: Content): (r: string)
    ensures c.Empty? ==> r == ""
    ensures c.Text? ==> r == c.text
    ensures c.Formula? ==> r != "" && r[0] == FormulaSign && r[1..] == c.ast.printed
    ensures r == "" ==> c.Empty? || c == Text("")
  {
    match c
    case Empty => ""
    case Text(t) => t
    case Formula(ast) => [FormulaSign] + ast.printed
  }

  /** `GetReferencedCells` of each implementation; Empty and Text inherit the base class's empty list. */
  function ContentRefs(c: Content): (r: seq<Pos>)
    ensures forall i :: 0 <= i < |r| ==> IsValid(r[i])
  {
    match c
    case Formula(ast) =>
      ValidOnlyMembers(ast.cells);
      ValidOnly(ast.cells)
    case _ => []
  }

  /**
   * `GetValue` of each implementation. `lookup` is what reading another cell
   * through the owning sheet gives; None is an exception escaping.
   */
  function ContentValue(c: Content, lookup: Pos -> CellRead, stod: string -> StodResult,
                        execute: (Ast, Pos -> Resolved) -> Resolved): (r: Option<CellValue>)
    ensures c.Empty? ==> r == Some(Str(""))
    ensures c.Text? ==> (r.Some? && r.value.Str? &&
              if |c.text| > 0 && c.text[0] == EscapeSign then [EscapeSign] + r.value.s == c.text
              else r.value.s == c.text)
    ensures c.Formula? ==> (r.None? <==> Evaluate(c.ast, lookup, stod, execute) == Thrown)
    ensures c.Formula? && r.Some? ==> !r.value.Str?
  {
    match c
    case Empty => Some(Str(""))
    case Text(t) =>
      if |t| != 0 && t[0] == EscapeSign then Some(Str(t[1..])) else Some(Str(t))
    case Formula(ast) =>
      match Evaluate(ast, lookup, stod, execute)
      case Returned(Numeric(x)) => Some(Num(x))
      case Returned(Failed(e)) => Some(Err(e))
      case Thrown => None
  }

  /** Setting Empty or Text content and reading its text back gives the text that was set. */
  lemma ClassifyTextRoundTrip(text: string, parse: string -> Option<Ast>)
    requires !(|text| >= 2 && text[0] == FormulaSign)
    ensures Classify(text, parse).Some?
    ensures ContentText(Classify(text, parse).value) == text
    ensures ContentRefs(Classify(text, parse).value) == []
  {
  }

  /** A formula's text starts with the formula sign, so it is never empty. */
  lemma FormulaTextNonEmpty(ast: Ast)
    ensures ContentText(Formula(ast)) != "" && ContentText(Formula(ast))[0] == FormulaSign
  {
  }

  // ---------------------------------------------------------------------------
  // The grid shape

  /** `pos` addresses an existing slot of a grid whose row r has w[r] slots. */
  predicate InBounds(w: seq<nat>, p: Pos) {
    0 <= p.row < |w| && 0 <= p.col < w[p.row]
  }

  /** No row and no row's slot count has shrunk. */
  predicate Grown(w: seq<nat>, w': seq<nat>) {
    |w| <= |w'| && forall i :: 0 <= i < |w| ==> w[i] <= w'[i]
  }

  /** The two `resize` calls of `Sheet::SetCell`. */
  function Grow(w: seq<nat>, p: Pos): (r: seq<nat>)
    requires 0 <= p.row && 0 <= p.col
    ensures Grown(w, r) && InBounds(r, p)
    ensures |r| == if |w| < p.row + 1 then p.row + 1 else |w|
    ensures forall i :: 0 <= i < |r| && i != p.row ==> r[i] == if i < |w| then w[i] else 0
    ensures r[p.row] == if p.row < |w| && p.col < w[p.row] then w[p.row] else p.col + 1
    ensures InBounds(w, p) ==> r == w
  {
    var rows := if |w| < p.row + 1 then w + seq(p.row + 1 - |w|, _ => 0) else w;
    rows[p.row := if rows[p.row] < p.col + 1 then p.col + 1 else rows[p.row]]
  }

  /** Growing for each position of `ps` in turn. */
  function GrowAll(w: seq<nat>, ps: seq<Pos>): (r: seq<nat>)
    requires forall i :: 0 <= i < |ps| ==> IsValid(ps[i])
    ensures Grown(w, r)
    ensures forall i :: 0 <= i < |ps| ==> InBounds(r, ps[i])
    ensures forall q :: InBounds(w, q) ==> InBounds(r, q)
    decreases |ps|
  {
    if ps == [] then w
    else
      assert IsValid(ps[|ps| - 1]);
      assert forall i :: 0 <= i < |ps| - 1 ==> ps[..|ps| - 1][i] == ps[i];
      Grow(GrowAll(w, ps[..|ps| - 1]), ps[|ps| - 1])
  }

  // ---------------------------------------------------------------------------
  // The dependency graph

  /** Every cell sits at a valid position inside the grid. */
  ghost predicate Placed(w: seq<nat>, s: map<Pos, Cell>) {
    forall p :: p in s ==> IsValid(p) && InBounds(w, p)
  }

  /** Every edge ends at an existing cell. */
  ghost predicate Closed(s: map<Pos, Cell>) {
    forall p :: p in s ==> s[p].precedents <= s.Keys && s[p].dependents <= s.Keys
  }

  /** q is a precedent of p exactly when p is a dependent of q. */
  ghost predicate Symmetric(s: map<Pos, Cell>) {
    forall p, q :: p in s && q in s ==> (q in s[p].precedents <==> p in s[q].dependents)
  }

  ghost predicate WellFormed(w: seq<nat>, s: map<Pos, Cell>) {
    Placed(w, s) && Closed(s) && Symmetric(s)
  }

  /** A walk along precedent edges through existing cells. */
  ghost predicate IsPath(s: map<Pos, Cell>, path: seq<Pos>) {
    && |path| > 0
    && (forall i :: 0 <= i < |path| ==> path[i] in s)
    && (forall i :: 0 <= i < |path| - 1 ==> path[i] in s && path[i + 1] in s[path[i]].precedents)
  }

  ghost predicate Reachable(s: map<Pos, Cell>, a: Pos, b: Pos) {
    exists path :: IsPath(s, path) && path[0] == a && path[|path| - 1] == b
  }

  /**
   * What `Cell::IsCircularDependency` decides for the cell at `pos` and the
   * new content's references `refs`: some cell reachable from `pos` along the
   * existing precedent edges (including `pos` itself) is referenced.
   */
  ghost predicate Circular(s: map<Pos, Cell>, pos: Pos, refs: seq<Pos>) {
    |refs| > 0 && exists q :: q in refs && Reachable(s, pos, q)
  }

  lemma ReachableSelf(s: map<Pos, Cell>, a: Pos)
    requires a in s
    ensures Reachable(s, a, a)
  {
    assert IsPath(s, [a]);
  }

  lemma ReachableStep(s: map<Pos, Cell>, a: Pos, b: Pos, c: Pos)
    requires Reachable(s, a, b) && b in s && c in s[b].precedents && c in s
    ensures Reachable(s, a, c)
  {
    var path :| IsPath(s, path) && path[0] == a && path[|path| - 1] == b;
    var path' := path + [c];
    assert IsPath(s, path');
    assert path'[0] == a && path'[|path'| - 1] == c;
  }

  lemma ReachableEndsInMap(s: map<Pos, Cell>, a: Pos, b: Pos)
    requires Reachable(s, a, b)
    ensures a in s && b in s
  {
  }

  /** A set that holds `a` and is closed under precedent edges holds everything reachable from `a`. */
  lemma {:induction false} ClosedSetHoldsReachable(s: map<Pos, Cell>, S: set<Pos>, a: Pos, b: Pos)
    requires a in S && S <= s.Keys
    requires forall v :: v in S ==> s[v].precedents <= S
    requires Reachable(s, a, b)
    ensures b in S
  {
    var path :| IsPath(s, path) && path[0] == a && path[|path| - 1] == b;
    var i := 0;
    while i < |path| - 1
      invariant 0 <= i < |path| && path[i] in S
    {
      assert path[i + 1] in s[path[i]].precedents;
      i := i + 1;
    }
  }

  /** Referencing the cell itself is always rejected. */
  lemma SelfReferenceIsCircular(s: map<Pos, Cell>, pos: Pos, refs: seq<Pos>)
    requires pos in s && pos in refs
    ensures Circular(s, pos, refs)
  {
    ReachableSelf(s, pos);
  }

  /**
   * Re-setting a formula that keeps one of the cell's current references is
   * rejected, because the check walks the cell's existing precedents.
   */
  lemma KeptReferenceIsCircular(s: map<Pos, Cell>, pos: Pos, refs: seq<Pos>, q: Pos)
    requires pos in s && q in s && q in s[pos].precedents && q in refs
    ensures Circular(s, pos, refs)
  {
    ReachableSelf(s, pos);
    ReachableStep(s, pos, pos, q);
  }

  // ---------------------------------------------------------------------------
  // The effect of a successful `Cell::Set` on the graph

  function Elems(ps: seq<Pos>): set<Pos> {
    set p | p in ps
  }

  lemma ElemsSnoc(ps: seq<Pos>, x: Pos)
    ensures Elems(ps + [x]) == Elems(ps) + {x}
  {
    assert forall p :: p in ps + [x] <==> p in ps || p == x;
  }

  /** One cell after `pos` took content `c` whose referenced cells are `R`. */
  function RewiredCell(s: map<Pos, Cell>, pos: Pos, c: Content, R: set<Pos>, q: Pos): Cell {
    var base := if q in s then s[q] else NewCell();
    var deps := (base.dependents - {pos}) + (if q in R then {pos} else {});
    if q == pos then base.(content := c, precedents := R, dependents := deps)
    else base.(dependents := deps)
  }

  /**
   * All cells after `pos` took content `c` referencing `R`: missing targets
   * are materialized as new cells, `pos` leaves every dependent set and joins
   * those of `R`, and its precedents become `R`.
   */
  function Rewired(s: map<Pos, Cell>, pos: Pos, c: Content, R: set<Pos>): map<Pos, Cell> {
    map q | q in s.Keys + R :: RewiredCell(s, pos, c, R, q)
  }

  /** Rewiring keeps the graph well formed: edges stay symmetric and closed. */
  lemma RewiredWellFormed(w: seq<nat>, s: map<Pos, Cell>, pos: Pos, c: Content, R: set<Pos>, w': seq<nat>)
    requires WellFormed(w, s) && pos in s
    requires Grown(w, w')
    requires forall q :: q in R ==> IsValid(q) && InBounds(w', q)
    ensures WellFormed(w', Rewired(s, pos, c, R))
  {
    var s' := Rewired(s, pos, c, R);
    forall p | p in s'
      ensures IsValid(p) && InBounds(w', p)
    {
      if p in s {
        assert InBounds(w, p);
      }
    }
    forall p | p in s'
      ensures s'[p].precedents <= s'.Keys && s'[p].dependents <= s'.Keys
    {
    }
    forall p, q | p in s' && q in s'
      ensures q in s'[p].precedents <==> p in s'[q].dependents
    {
      if p != pos && p in s && q in s {
        assert q in s[p].precedents <==> p in s[q].dependents;
      }
    }
  }

  // ---------------------------------------------------------------------------
  // `Cell::Set` and `Sheet::SetCell` as functions of the whole state

  /** No cell holds a cached value. */
  ghost predicate NoCachedValues(s: map<Pos, Cell>) {
    forall q :: q in s ==> s[q].cache.None?
  }

  datatype SetResult = SetResult(status: Status, widths: seq<nat>, slots: map<Pos, Cell>)

  /**
   * `Cell::Set(text)` on the existing cell at `pos`, apart from the value
   * caches: classify, reject a syntax error or a circular reference before
   * anything changes, otherwise install the content, materialize the missing
   * referenced cells (growing the grid for each) and rewire the edges.
   */
  ghost function CellSet(w: seq<nat>, s: map<Pos, Cell>, pos: Pos, text: string,
                         parse: string -> Option<Ast>): (r: SetResult)
    requires pos in s
    ensures r.status == Done || r.status == FormulaSyntax || r.status == CircularDependency
    ensures r.status != Done ==> r.widths == w && r.slots == s
    ensures Grown(w, r.widths) && s.Keys <= r.slots.Keys
    ensures NoCachedValues(s) ==> NoCachedValues(r.slots)
  {
    match Classify(text, parse)
    case None => SetResult(FormulaSyntax, w, s)
    case Some(c) =>
      if c.Formula? && Circular(s, pos, ContentRefs(c)) then SetResult(CircularDependency, w, s)
      else SetResult(Done, GrowAll(w, ContentRefs(c)), Rewired(s, pos, c, Elems(ContentRefs(c))))
  }

  /** `Sheet::SetCell`: validate, grow, create the cell if its slot is empty, then `Cell::Set`. */
  ghost function SheetSet(w: seq<nat>, s: map<Pos, Cell>, pos: Pos, text: string,
                          parse: string -> Option<Ast>): (r: SetResult)
    ensures r.status == InvalidPosition <==> !IsValid(pos)
    ensures Grown(w, r.widths) && s.Keys <= r.slots.Keys
    ensures IsValid(pos) ==> pos in r.slots
    ensures NoCachedValues(s) ==> NoCachedValues(r.slots)
  {
    if !IsValid(pos) then SetResult(InvalidPosition, w, s)
    else CellSet(Grow(w, pos), if pos in s then s else s[pos := NewCell()], pos, text, parse)
  }

  /** A rejected edit changes nothing. */
  lemma CellSetRejectedUnchanged(w: seq<nat>, s: map<Pos, Cell>, pos: Pos, text: string, parse: string -> Option<Ast>)
    requires pos in s
    ensures CellSet(w, s, pos, text, parse).status != Done ==>
              CellSet(w, s, pos, text, parse).widths == w && CellSet(w, s, pos, text, parse).slots == s
    ensures CellSet(w, s, pos, text, parse).status == FormulaSyntax <==> Classify(text, parse).None?
    ensures CellSet(w, s, pos, text, parse).status == CircularDependency <==>
              Classify(text, parse).Some? && Classify(text, parse).value.Formula? &&
              Circular(s, pos, ContentRefs(Classify(text, parse).value))
  {
  }

  /** `Cell::Set` keeps the graph well formed. */
  lemma CellSetWellFormed(w: seq<nat>, s: map<Pos, Cell>, pos: Pos, text: string, parse: string -> Option<Ast>)
    requires WellFormed(w, s) && pos in s
    ensures WellFormed(CellSet(w, s, pos, text, parse).widths, CellSet(w, s, pos, text, parse).slots)
  {
    match Classify(text, parse)
    case None =>
    case Some(c) =>
      if !(c.Formula? && Circular(s, pos, ContentRefs(c))) {
        var refs := ContentRefs(c);
        RewiredWellFormed(w, s, pos, c, Elems(refs), GrowAll(w, refs));
      }
  }

  /**
   * After a successful `Cell::Set`: the cell holds the new content, its
   * precedents are exactly the referenced positions, each of which now holds
   * a cell listing it as a dependent; it has left the dependent set of every
   * old precedent it no longer references; missing targets were created
   * Empty; no other cell's content or precedents changed.
   */
  lemma CellSetEdges(w: seq<nat>, s: map<Pos, Cell>, pos: Pos, text: string, parse: string -> Option<Ast>)
    requires WellFormed(w, s) && pos in s
    requires CellSet(w, s, pos, text, parse).status == Done
    ensures var c := Classify(text, parse).value;
            var refs := ContentRefs(c);
            var s' := CellSet(w, s, pos, text, parse).slots;
            && s'.Keys == s.Keys + Elems(refs)
            && s'[pos].content == c
            && s'[pos].precedents == Elems(refs)
            && (forall q :: q in refs ==> pos in s'[q].dependents)
            && (forall q :: q in s[pos].precedents && q !in refs ==> pos !in s'[q].dependents)
            && (forall q :: q in s' && q !in s ==> s'[q].content == Empty && s'[q].precedents == {})
            && (forall q :: q in s && q != pos ==> s'[q].content == s[q].content && s'[q].precedents == s[q].precedents)
  {
    var c := Classify(text, parse).value;
    var refs := ContentRefs(c);
    assert CellSet(w, s, pos, text, parse).slots == Rewired(s, pos, c, Elems(refs));
    RewiredEdges(s, pos, c, Elems(refs));
  }

  /** The edges after a rewiring, for any set `R` of referenced positions. */
  lemma RewiredEdges(s: map<Pos, Cell>, pos: Pos, c: Content, R: set<Pos>)
    requires pos in s
    ensures var s' := Rewired(s, pos, c, R);
            && s'.Keys == s.Keys + R
            && s'[pos].content == c
            && s'[pos].precedents == R
            && (forall q :: q in R ==> pos in s'[q].dependents)
            && (forall q :: q in s && q !in R ==> pos !in s'[q].dependents)
            && (forall q :: q in s' && q !in s ==> s'[q].content == Empty && s'[q].precedents == {})
            && (forall q :: q in s && q != pos ==> s'[q].content == s[q].content && s'[q].precedents == s[q].precedents)
  {
  }

  /**
   * A successful formula edit never keeps an old precedent: the cycle check
   * rejects any content that references a cell the current one already reads,
   * or the cell itself.
   */
  lemma FormulaSetDropsOldPrecedents(w: seq<nat>, s: map<Pos, Cell>, pos: Pos, text: string, parse: string -> Option<Ast>)
    requires WellFormed(w, s) && pos in s
    requires CellSet(w, s, pos, text, parse).status == Done
    ensures var refs := ContentRefs(Classify(text, parse).value);
            pos !in refs && forall q :: q in refs ==> q !in s[pos].precedents
  {
    var c := Classify(text, parse).value;
    var refs := ContentRefs(c);
    if c.Formula? {
      if pos in refs {
        SelfReferenceIsCircular(s, pos, refs);
      }
      forall q | q in refs
        ensures q !in s[pos].precedents
      {
        if q in s[pos].precedents {
          KeptReferenceIsCircular(s, pos, refs, q);
        }
      }
    }
  }

  /** `Sheet::SetCell` never shrinks the grid and makes room for its position. */
  lemma SheetSetGrows(w: seq<nat>, s: map<Pos, Cell>, pos: Pos, text: string, parse: string -> Option<Ast>)
    ensures Grown(w, SheetSet(w, s, pos, text, parse).widths)
    ensures IsValid(pos) ==> InBounds(SheetSet(w, s, pos, text, parse).widths, pos) &&
                             pos in SheetSet(w, s, pos, text, parse).slots
    ensures !IsValid(pos) ==> SheetSet(w, s, pos, text, parse) == SetResult(InvalidPosition, w, s)
  {
    if IsValid(pos) {
      var w1 := Grow(w, pos);
      var s1 := if pos in s then s else s[pos := NewCell()];
      var c := Classify(text, parse);
      if c.Some? && !(c.value.Formula? && Circular(s1, pos, ContentRefs(c.value))) {
        var refs := ContentRefs(c.value);
        assert Grown(w1, GrowAll(w1, refs));
      }
    }
  }

  /** A rejected `SetCell` still leaves the grown grid and a materialized empty cell behind. */
  lemma SheetSetRejectedMaterializes(w: seq<nat>, s: map<Pos, Cell>, pos: Pos, text: string, parse: string -> Option<Ast>)
    requires IsValid(pos)
    requires SheetSet(w, s, pos, text, parse).status != Done
    ensures SheetSet(w, s, pos, text, parse).widths == Grow(w, pos)
    ensures SheetSet(w, s, pos, text, parse).slots == if pos in s then s else s[pos := NewCell()]
  {
  }

  /** The sheet before the edit: A1 reads A2, A2 is empty. */
  function CycleStart(): map<Pos, Cell> {
    map[Pos(0, 0) := Cell(Formula(Ast("A2", [Pos(1, 0)])), {Pos(1, 0)}, {}, None),
        Pos(1, 0) := Cell(Empty, {}, {Pos(0, 0)}, None)]
  }

  lemma CycleStartWellFormed()
    ensures WellFormed([1, 1], CycleStart())
  {
    var s := CycleStart();
    assert s.Keys == {Pos(0, 0), Pos(1, 0)};
    forall p, q | p in s && q in s
      ensures q in s[p].precedents <==> p in s[q].dependents
    {
    }
  }

  /**
   * The cycle check does not see a cycle closed through the cell's
   * dependents: with A1 reading A2, setting A2 to read A1 is accepted, and
   * afterwards A1 reaches itself through A2.
   */
  lemma UndetectedCycle()
    ensures var c := Formula(Ast("A1", [Pos(0, 0)]));
            var s' := Rewired(CycleStart(), Pos(1, 0), c, Elems(ContentRefs(c)));
            && WellFormed([1, 1], CycleStart())
            && !Circular(CycleStart(), Pos(1, 0), ContentRefs(c))
            && Reachable(s', Pos(0, 0), Pos(1, 0))
            && Reachable(s', Pos(1, 0), Pos(0, 0))
  {
    var a1, a2 := Pos(0, 0), Pos(1, 0);
    var s := CycleStart();
    CycleStartWellFormed();
    var c := Formula(Ast("A1", [a1]));
    var refs := ContentRefs(c);
    assert refs == [a1] by {
      assert ValidOnly([a1]) == ValidOnly([]) + [a1];
    }
    // Nothing but A2 itself is reachable from A2, which has no precedents.
    OnlySelfReachable(s, a2);
    assert Elems(refs) == {a1};
    CycleClosed(c);
  }

  /**
   * The same scenario through `CellSet`: on a sheet where A1 reads A2,
   * setting A2 to `=A1` succeeds and leaves A1 and A2 reading each other.
   */
  lemma UndetectedCycleAccepted(parse: string -> Option<Ast>)
    requires parse("A1") == Some(Ast("A1", [Pos(0, 0)]))
    ensures var r := CellSet([1, 1], CycleStart(), Pos(1, 0), "=A1", parse);
            && r.status == Done
            && Reachable(r.slots, Pos(0, 0), Pos(1, 0))
            && Reachable(r.slots, Pos(1, 0), Pos(0, 0))
  {
    UndetectedCycle();
    assert "=A1"[1..] == "A1";
  }

  /** After the edit A1 and A2 read each other. */
  lemma CycleClosed(c: Content)
    ensures var s' := Rewired(CycleStart(), Pos(1, 0), c, {Pos(0, 0)});
            Reachable(s', Pos(0, 0), Pos(1, 0)) && Reachable(s', Pos(1, 0), Pos(0, 0))
  {
    var a1, a2 := Pos(0, 0), Pos(1, 0);
    var s' := Rewired(CycleStart(), a2, c, {a1});
    assert a1 in s' && a2 in s';
    assert s'[a1].precedents == {a2};
    assert s'[a2].precedents == {a1};
    assert IsPath(s', [a1, a2]);
    assert IsPath(s', [a2, a1]);
  }

  /** From a cell without precedents only the cell itself is reachable. */
  lemma OnlySelfReachable(s: map<Pos, Cell>, a: Pos)
    requires a in s && s[a].precedents == {}
    ensures forall b :: Reachable(s, a, b) ==> b == a
  {
    forall b | Reachable(s, a, b)
      ensures b == a
    {
      ClosedSetHoldsReachable(s, {a}, a, b);
    }
  }
}
