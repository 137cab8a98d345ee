/**
 * The sheet (table/sheet.cpp) and the cell operations that change the graph
 * (cell.cpp): a growable grid of optional cell slots, `SetCell`, the two
 * lookups, `ClearCell`, `GetPrintableSize`, and `Cell::Set`, `Cell::Clear`,
 * `Cell::ClearCache` and `Cell::IsCircularDependency` on the cell at a
 * position.
 */
module Sheets {
  import opened Common
  import opened Formulas
  import opened Cells

  /** What a slot lookup gives: an `InvalidPositionException`, null, a cell, or a dereference of a null slot. */
  datatype Lookup = InvalidPos | Null | Found(cell: Cell) | NullDeref

  /** The cells with their caches dropped: the state that caching does not affect. */
  function StripCache(s: map<Pos, Cell>): map<Pos, Cell> {
    map q | q in s :: s[q].(cache := None)
  }

  /** `s'` differs from `s` at most by caches that were dropped. */
  ghost predicate CachesOnlyCleared(s: map<Pos, Cell>, s': map<Pos, Cell>) {
    && StripCache(s') == StripCache(s)
    && forall q :: q in s' ==> s'[q].cache == None || (q in s && s'[q].cache == s[q].cache)
  }

  function CachedCells(s: map<Pos, Cell>): set<Pos> {
    set q | q in s && s[q].cache.Some?
  }

  /** A cell whose text is not empty: what `GetCell` returns and what is printed. */
  predicate Printable(s: map<Pos, Cell>, p: Pos) {
    p in s && ContentText(s[p].content) != ""
  }

  /** `Sheet::GetCell` on a grid of row widths `w` and slots `s`. */
  function CellAt(w: seq<nat>, s: map<Pos, Cell>, p: Pos): Lookup {
    if !IsValid(p) then InvalidPos
    else if InBounds(w, p) then
      if p !in s then NullDeref
      else if ContentText(s[p].content) != "" then Found(s[p])
      else Null
    else Null
  }

  /**
   * `sheet.GetCell(pos)` followed by `GetValue()` on the result, as the
   * resolver does; a formula cell reads its own references the same way. The
   * source has no bound on this recursion; `fuel` bounds its depth, and
   * running out of it counts as a crash.
   */
  function ReadAt(w: seq<nat>, s: map<Pos, Cell>, p: Pos, fuel: nat, stod: string -> StodResult,
                  execute: (Ast, Pos -> Resolved) -> Resolved): (r: CellRead)
    ensures r == NoCell <==> CellAt(w, s, p) == Null
    ensures r.Read? ==> Printable(s, p) && fuel > 0
    ensures r.Read? && !s[p].content.Formula? ==> r.v == ContentValue(s[p].content, _ => NoCell, stod, execute).value
    ensures fuel > 0 && CellAt(w, s, p).Found? && !s[p].content.Formula? ==> r.Read?
    decreases fuel
  {
    match CellAt(w, s, p)
    case InvalidPos => Crashed
    case Null => NoCell
    case NullDeref => Crashed
    case Found(cell) =>
      if fuel == 0 then Crashed
      else
        match ContentValue(cell.content, q => ReadAt(w, s, q, fuel - 1, stod, execute), stod, execute)
        case None => Crashed
        case Some(v) => Read(v)
  }

  /** Number of stack entries that are already visited (the termination measure of the cycle check). */
  function VisitedEntries(stack: seq<Pos>, visited: set<Pos>): nat {
    if stack == [] then 0
    else VisitedEntries(stack[..|stack| - 1], visited) + (if stack[|stack| - 1] in visited then 1 else 0)
  }

  /** Every entry of the stack is an existing cell reachable from `pos`. */
  ghost predicate AllReachable(s: map<Pos, Cell>, pos: Pos, stack: seq<Pos>) {
    forall i :: 0 <= i < |stack| ==> stack[i] in s && Reachable(s, pos, stack[i])
  }

  /** Every precedent of a visited cell is visited or waiting on the stack. */
  ghost predicate Frontier(s: map<Pos, Cell>, visited: set<Pos>, stack: seq<Pos>)
    requires visited <= s.Keys
  {
    forall v :: v in visited ==> s[v].precedents <= visited + Elems(stack)
  }

  lemma VisitKeepsFrontier(s: map<Pos, Cell>, visited: set<Pos>, popped: seq<Pos>, cur: Pos, pushed: seq<Pos>)
    requires cur in s && visited <= s.Keys
    requires forall v :: v in visited ==> s[v].precedents <= visited + Elems(popped) + {cur}
    requires Elems(pushed) == Elems(popped) + (s[cur].precedents - (visited + {cur}))
    ensures Frontier(s, visited + {cur}, pushed)
  {
  }

  /** Each visit either marks a new cell or consumes a stack entry that was already visited. */
  lemma VisitDecreases(keys: set<Pos>, v0: set<Pos>, stack: seq<Pos>, pushed: seq<Pos>)
    requires stack != [] && stack[|stack| - 1] in keys
    requires VisitedEntries(pushed, v0 + {stack[|stack| - 1]}) ==
             VisitedEntries(stack[..|stack| - 1], v0 + {stack[|stack| - 1]})
    ensures var v1 := v0 + {stack[|stack| - 1]};
            || |keys - v1| < |keys - v0|
            || (|keys - v1| == |keys - v0| && VisitedEntries(pushed, v1) < VisitedEntries(stack, v0))
  {
    var cur := stack[|stack| - 1];
    var v1 := v0 + {cur};
    if cur in v0 {
      assert v1 == v0;
    } else {
      assert keys - v0 == (keys - v1) + {cur};
    }
  }

  lemma ElemsPop(stack: seq<Pos>)
    requires stack != []
    ensures Elems(stack) == Elems(stack[..|stack| - 1]) + {stack[|stack| - 1]}
  {
    assert stack == stack[..|stack| - 1] + [stack[|stack| - 1]];
    ElemsSnoc(stack[..|stack| - 1], stack[|stack| - 1]);
  }

  lemma ElemsPrefix(ps: seq<Pos>, i: nat)
    requires i < |ps|
    ensures Elems(ps[..i + 1]) == Elems(ps[..i]) + {ps[i]}
  {
    assert ps[..i + 1] == ps[..i] + [ps[i]];
    ElemsSnoc(ps[..i], ps[i]);
  }

  lemma AllReachablePush(s: map<Pos, Cell>, pos: Pos, stack: seq<Pos>, q: Pos)
    requires AllReachable(s, pos, stack) && q in s && Reachable(s, pos, q)
    ensures AllReachable(s, pos, stack + [q])
  {
    forall i | 0 <= i < |stack| + 1
      ensures (stack + [q])[i] in s && Reachable(s, pos, (stack + [q])[i])
    {
      if i < |stack| {
        assert (stack + [q])[i] == stack[i];
      }
    }
  }

  lemma VisitedEntriesPush(stack: seq<Pos>, visited: set<Pos>, q: Pos)
    ensures VisitedEntries(stack + [q], visited) == VisitedEntries(stack, visited) + (if q in visited then 1 else 0)
  {
    assert (stack + [q])[..|stack|] == stack;
  }

  /** The cells after `pos` took content `c` and left the dependent sets of the cells in `D`. */
  function Unhooked(s0: map<Pos, Cell>, pos: Pos, c: Content, D: set<Pos>): map<Pos, Cell> {
    map q | q in s0 ::
      var x := if q == pos then s0[q].(content := c) else s0[q];
      if q in D then x.(dependents := x.dependents - {pos}) else x
  }

  lemma UnhookedStep(s0: map<Pos, Cell>, pos: Pos, c: Content, D: set<Pos>, q: Pos)
    requires q in s0
    ensures var u := Unhooked(s0, pos, c, D);
            Unhooked(s0, pos, c, D + {q}) == u[q := u[q].(dependents := u[q].dependents - {pos})]
  {
    var u := Unhooked(s0, pos, c, D);
    var u' := Unhooked(s0, pos, c, D + {q});
    assert u'.Keys == s0.Keys;
    forall k | k in u'
      ensures u'[k] == u[q := u[q].(dependents := u[q].dependents - {pos})][k]
    {
    }
  }

  /** Leaving the dependent sets of all old precedents is leaving every dependent set, by symmetry. */
  lemma UnhookedAll(s0: map<Pos, Cell>, pos: Pos, c: Content)
    requires pos in s0 && Symmetric(s0)
    ensures var u := Unhooked(s0, pos, c, s0[pos].precedents);
            u[pos := u[pos].(precedents := {})] == Rewired(s0, pos, c, {})
  {
    var u := Unhooked(s0, pos, c, s0[pos].precedents);
    var u' := u[pos := u[pos].(precedents := {})];
    var r := Rewired(s0, pos, c, {});
    assert u'.Keys == r.Keys;
    forall q | q in r
      ensures u'[q] == r[q]
    {
      if pos in s0[q].dependents {
        assert q in s0[pos].precedents;
      }
    }
  }

  /** One step of the rewiring loop of `Cell::Set`: materialize `q` if needed and add the edge pos -> q. */
  lemma RewiredAdd(s0: map<Pos, Cell>, pos: Pos, c: Content, R: set<Pos>, q: Pos)
    requires pos in s0
    ensures var s := Rewired(s0, pos, c, R);
            var s1 := if q in s then s else s[q := NewCell()];
            var s2 := s1[pos := s1[pos].(precedents := s1[pos].precedents + {q})];
            Rewired(s0, pos, c, R + {q}) == s2[q := s2[q].(dependents := s2[q].dependents + {pos})]
  {
    var s := Rewired(s0, pos, c, R);
    var s1 := if q in s then s else s[q := NewCell()];
    var s2 := s1[pos := s1[pos].(precedents := s1[pos].precedents + {q})];
    var s3 := s2[q := s2[q].(dependents := s2[q].dependents + {pos})];
    var t := Rewired(s0, pos, c, R + {q});
    assert t.Keys == s3.Keys;
    forall k | k in t
      ensures t[k] == s3[k]
    {
    }
  }

  lemma StripCacheWellFormed(w: seq<nat>, s: map<Pos, Cell>, s': map<Pos, Cell>)
    requires WellFormed(w, s) && StripCache(s') == StripCache(s)
    ensures WellFormed(w, s')
  {
    assert s'.Keys == StripCache(s').Keys == StripCache(s).Keys == s.Keys;
    forall p | p in s
      ensures s'[p].precedents == s[p].precedents && s'[p].dependents == s[p].dependents
    {
      assert StripCache(s')[p] == StripCache(s)[p];
    }
  }

  lemma ClearedKeepsGraph(a: map<Pos, Cell>, b: map<Pos, Cell>)
    requires CachesOnlyCleared(a, b)
    ensures b.Keys == a.Keys
    ensures forall q :: q in b ==> b[q].dependents == a[q].dependents && b[q].precedents == a[q].precedents &&
                                   b[q].content == a[q].content
    ensures CachedCells(b) <= CachedCells(a)
    ensures forall q :: q in a && a[q].cache.None? ==> b[q].cache.None?
  {
    assert b.Keys == StripCache(b).Keys == StripCache(a).Keys == a.Keys;
    forall q | q in b
      ensures b[q].dependents == a[q].dependents && b[q].precedents == a[q].precedents && b[q].content == a[q].content
    {
      assert StripCache(b)[q] == StripCache(a)[q];
    }
  }

  lemma ClearedTrans(a: map<Pos, Cell>, b: map<Pos, Cell>, c: map<Pos, Cell>)
    requires CachesOnlyCleared(a, b) && CachesOnlyCleared(b, c)
    ensures CachesOnlyCleared(a, c)
  {
    ClearedKeepsGraph(a, b);
    ClearedKeepsGraph(b, c);
  }

  lemma DropOneCache(s: map<Pos, Cell>, pos: Pos)
    requires pos in s
    ensures var s' := s[pos := s[pos].(cache := None)];
            && CachesOnlyCleared(s, s') && CachedCells(s') == CachedCells(s) - {pos}
            && ChangedOnlyReaders(s, s', pos) && ClearedClosedExcept(s, s', pos)
  {
    var s' := s[pos := s[pos].(cache := None)];
    assert StripCache(s') == StripCache(s);
    ReachableSelf(s, pos);
  }

  /** Every cell that differs between `a` and `b` reads `pos`, directly or through other cells. */
  ghost predicate ChangedOnlyReaders(a: map<Pos, Cell>, b: map<Pos, Cell>, pos: Pos) {
    forall q :: q in a && q in b && b[q] != a[q] ==> Reachable(a, q, pos)
  }

  /** Every dependent of the cell at `c` holds no cached value. */
  ghost predicate Settled(b: map<Pos, Cell>, c: Pos)
    requires c in b
  {
    forall e :: e in b[c].dependents && e in b ==> b[e].cache.None?
  }

  /** Every cell whose cache went from a value to none, except `x`, has only dependents without a cached value. */
  ghost predicate ClearedClosedExcept(a: map<Pos, Cell>, b: map<Pos, Cell>, x: Pos) {
    forall c :: c != x && c in a && c in b && a[c].cache.Some? && b[c].cache.None? ==> Settled(b, c)
  }

  /** Every cell whose cache went from a value to none has only dependents without a cached value. */
  ghost predicate ClearedClosed(a: map<Pos, Cell>, b: map<Pos, Cell>) {
    forall c :: c in a && c in b && a[c].cache.Some? && b[c].cache.None? ==> Settled(b, c)
  }

  /** Reachability depends only on the cells present and their precedents. */
  lemma ReachableSameGraph(a: map<Pos, Cell>, b: map<Pos, Cell>, x: Pos, y: Pos)
    requires a.Keys == b.Keys && forall q :: q in a ==> a[q].precedents == b[q].precedents
    requires Reachable(a, x, y)
    ensures Reachable(b, x, y)
  {
    var path :| IsPath(a, path) && path[0] == x && path[|path| - 1] == y;
    assert IsPath(b, path);
  }

  /** Changes made below a dependent `d` of `pos` are changes to cells that read `pos`. */
  lemma ReadersTrans(s0: map<Pos, Cell>, mid: map<Pos, Cell>, s1: map<Pos, Cell>, pos: Pos, d: Pos)
    requires CachesOnlyCleared(s0, mid) && CachesOnlyCleared(mid, s1)
    requires ChangedOnlyReaders(s0, mid, pos) && ChangedOnlyReaders(mid, s1, d)
    requires pos in s0 && d in s0 && pos in s0[d].precedents
    ensures ChangedOnlyReaders(s0, s1, pos)
  {
    ClearedKeepsGraph(s0, mid);
    ClearedKeepsGraph(mid, s1);
    forall q | q in s0 && q in s1 && s1[q] != s0[q]
      ensures Reachable(s0, q, pos)
    {
      if s1[q] != mid[q] {
        ReachableSameGraph(mid, s0, q, d);
        ReachableStep(s0, q, d, pos);
      }
    }
  }

  /** Cells settled earlier stay settled while further caches are dropped. */
  lemma SettledTrans(s0: map<Pos, Cell>, mid: map<Pos, Cell>, s1: map<Pos, Cell>, pos: Pos)
    requires CachesOnlyCleared(s0, mid) && CachesOnlyCleared(mid, s1)
    requires ClearedClosedExcept(s0, mid, pos) && ClearedClosed(mid, s1)
    ensures ClearedClosedExcept(s0, s1, pos)
  {
    ClearedKeepsGraph(s0, mid);
    ClearedKeepsGraph(mid, s1);
    forall c | c != pos && c in s0 && c in s1 && s0[c].cache.Some? && s1[c].cache.None?
      ensures Settled(s1, c)
    {
      if mid[c].cache.None? {
        assert Settled(mid, c);
      }
    }
  }

  /**
   * Along a chain of dependents that all held a cached value, clearing the
   * first cell's cache clears them all: `ClearCache` reaches every cached cell
   * that depends on `pos` through cached cells.
   */
  lemma {:induction false} ClearedAlongDependents(a: map<Pos, Cell>, b: map<Pos, Cell>, path: seq<Pos>)
    requires CachesOnlyCleared(a, b) && ClearedClosed(a, b)
    requires |path| > 0 && forall i :: 0 <= i < |path| ==> path[i] in a && a[path[i]].cache.Some?
    requires forall i :: 0 <= i < |path| - 1 ==> path[i + 1] in a[path[i]].dependents
    requires path[0] in b && b[path[0]].cache.None?
    ensures forall i :: 0 <= i < |path| ==> path[i] in b && b[path[i]].cache.None?
  {
    ClearedKeepsGraph(a, b);
    var k := 0;
    while k < |path| - 1
      invariant 0 <= k < |path|
      invariant forall i :: 0 <= i <= k ==> b[path[i]].cache.None?
    {
      assert Settled(b, path[k]);
      k := k + 1;
    }
  }

  /** With no cached values to begin with, dropping caches changes nothing. */
  lemma ClearedNothing(a: map<Pos, Cell>, b: map<Pos, Cell>)
    requires NoCachedValues(a) && CachesOnlyCleared(a, b)
    ensures b == a
  {
    ClearedKeepsGraph(a, b);
    forall q | q in a
      ensures b[q] == a[q]
    {
      assert StripCache(b)[q] == StripCache(a)[q];
    }
  }

  /** Moving one element from the work set to the done set keeps their union. */
  lemma MoveOne(done: set<Pos>, todo: set<Pos>, x: Pos)
    requires x in todo
    ensures (done + {x}) + (todo - {x}) == done + todo
  {
  }

  lemma SubsetSmaller(a: set<Pos>, b: set<Pos>, x: Pos)
    requires a <= b - {x} && x in b
    ensures |a| < |b|
  {
    var d := (b - {x}) - a;
    assert b - {x} == a + d;
    assert b == (b - {x}) + {x};
  }

  class Sheet {
    /** `cells_`: the number of rows, and the number of slots in each row. */
    var widths: seq<nat>
    /** The non-null slots of `cells_`, keyed by position. */
    var slots: map<Pos, Cell>

    ghost predicate Valid()
      reads this
    {
      WellFormed(widths, slots)
    }

    constructor ()
      ensures Valid() && widths == [] && slots == map[]
      ensures NoCachedValues(slots)
    {
      widths := [];
      slots := map[];
    }

    /**
     * `Sheet::GetCell` (both overloads have the same body): the cell if the
     * position is in the grid and its text is not empty, otherwise null; an
     * in-grid slot that was never filled is dereferenced.
     */
    function GetCell(pos: Pos): (r: Lookup)
      reads this
      ensures r == InvalidPos <==> !IsValid(pos)
      ensures Valid() ==> (r.Found? <==> IsValid(pos) && Printable(slots, pos))
      ensures r.Found? ==> pos in slots && r.cell == slots[pos]
      ensures r == NullDeref <==> IsValid(pos) && InBounds(widths, pos) && pos !in slots
    {
      CellAt(widths, slots, pos)
    }

    /** `Sheet::GetConcreteCell`: the slot, whatever its text, if the position is in the grid. */
    function GetConcreteCell(pos: Pos): (r: Lookup)
      reads this
      ensures r == InvalidPos <==> !IsValid(pos)
      ensures r != NullDeref
      ensures Valid() ==> (r.Found? <==> IsValid(pos) && pos in slots)
      ensures r.Found? ==> pos in slots && r.cell == slots[pos]
    {
      if !IsValid(pos) then InvalidPos
      else if InBounds(widths, pos) && pos in slots then Found(slots[pos])
      else Null
    }

    /** A cell that `GetCell` finds is the one `GetConcreteCell` finds. */
    lemma GetCellIsConcrete(pos: Pos)
      requires Valid()
      ensures GetCell(pos).Found? ==> GetConcreteCell(pos) == GetCell(pos)
      ensures GetConcreteCell(pos).Found? && !GetCell(pos).Found? ==> GetConcreteCell(pos).cell.content.Empty? || GetConcreteCell(pos).cell.content == Text("")
    {
    }

    /** `Cell::GetValue` of the cell at `pos`, reading other cells through this sheet. */
    function GetValue(pos: Pos, fuel: nat, stod: string -> StodResult,
                      execute: (Ast, Pos -> Resolved) -> Resolved): (r: Option<CellValue>)
      reads this
      requires pos in slots
      ensures !slots[pos].content.Formula? ==> r == ContentValue(slots[pos].content, _ => NoCell, stod, execute)
      ensures r.Some? && r.value.Str? ==> !slots[pos].content.Formula?
    {
      var w, s := widths, slots;
      ContentValue(s[pos].content, q => ReadAt(w, s, q, fuel, stod, execute), stod, execute)
    }

    /** The slot-filling part of `SetCell(q, ...)`: grow the grid to hold `q`, create a cell if the slot is null. */
    method Materialize(q: Pos)
      requires IsValid(q)
      modifies this
      ensures widths == Grow(old(widths), q)
      ensures slots == if q in old(slots) then old(slots) else old(slots)[q := NewCell()]
      ensures old(Valid()) ==> Valid()
      ensures NoCachedValues(old(slots)) ==> NoCachedValues(slots)
    {
      widths := Grow(widths, q);
      if q !in slots {
        slots := slots[q := NewCell()];
      }
    }

    /** `Sheet::SetCell`. */
    method SetCell(pos: Pos, text: string, parse: string -> Option<Ast>) returns (status: Status)
      requires Valid()
      modifies this
      ensures Valid()
      ensures var r := SheetSet(old(widths), old(slots), pos, text, parse);
              status == r.status && widths == r.widths && CachesOnlyCleared(r.slots, slots)
      ensures NoCachedValues(old(slots)) ==>
                NoCachedValues(slots) && slots == SheetSet(old(widths), old(slots), pos, text, parse).slots
    {
      if !IsValid(pos) {
        return InvalidPosition;
      }
      Materialize(pos);
      status := Set(pos, text, parse);
    }

    /**
     * `Cell::Set` on the cell at `pos`: classify and check before changing
     * anything, then replace the content, unhook the cell from its old
     * precedents, hook it to the cells of its references (materializing them),
     * and invalidate its cache.
     */
    method Set(pos: Pos, text: string, parse: string -> Option<Ast>) returns (status: Status)
      requires Valid() && pos in slots
      modifies this
      ensures Valid()
      ensures var r := CellSet(old(widths), old(slots), pos, text, parse);
              status == r.status && widths == r.widths && CachesOnlyCleared(r.slots, slots)
      ensures NoCachedValues(old(slots)) ==> slots == CellSet(old(widths), old(slots), pos, text, parse).slots
      ensures pos in slots && (status == Done ==> slots[pos].cache == None)
    {
      var parsed := Classify(text, parse);
      if parsed.None? {
        return FormulaSyntax;
      }
      var c := parsed.value;
      if c.Formula? {
        var circular := IsCircularDependency(pos, c);
        if circular {
          return CircularDependency;
        }
      }
      ghost var s0, w0 := slots, widths;
      var refs := ContentRefs(c);
      Unhook(pos, c);
      UnhookedAll(s0, pos, c);
      Hook(pos, c, refs, s0);
      RewiredWellFormed(w0, s0, pos, c, Elems(refs), widths);
      ClearCache(pos);
      status := Done;
      if NoCachedValues(s0) {
        ClearedNothing(CellSet(w0, s0, pos, text, parse).slots, slots);
      }
    }

    /**
     * First half of the commit in `Cell::Set`: install the content, remove
     * the cell from the dependent set of each old precedent, and clear its
     * precedent set.
     */
    method Unhook(pos: Pos, c: Content)
      requires pos in slots && slots[pos].precedents <= slots.Keys
      modifies this
      ensures widths == old(widths)
      ensures var u := Unhooked(old(slots), pos, c, old(slots)[pos].precedents);
              slots == u[pos := u[pos].(precedents := {})]
    {
      ghost var s0 := slots;
      slots := slots[pos := slots[pos].(content := c)];
      var todo := slots[pos].precedents;
      ghost var done: set<Pos> := {};
      while todo != {}
        invariant done + todo == s0[pos].precedents
        invariant widths == old(widths)
        invariant slots == Unhooked(s0, pos, c, done)
        decreases todo
      {
        var q :| q in todo;
        UnhookedStep(s0, pos, c, done, q);
        todo := todo - {q};
        done := done + {q};
        slots := slots[q := slots[q].(dependents := slots[q].dependents - {pos})];
      }
      slots := slots[pos := slots[pos].(precedents := {})];
    }

    /**
     * Second half of the commit in `Cell::Set`: for each referenced position,
     * materialize its cell if the slot is null, then add the edge both ways.
     */
    method Hook(pos: Pos, c: Content, refs: seq<Pos>, ghost s0: map<Pos, Cell>)
      requires pos in s0 && forall q :: q in s0 ==> InBounds(widths, q)
      requires slots == Rewired(s0, pos, c, {})
      requires forall i :: 0 <= i < |refs| ==> IsValid(refs[i])
      modifies this
      ensures widths == GrowAll(old(widths), refs)
      ensures slots == Rewired(s0, pos, c, Elems(refs))
    {
      ghost var w0 := widths;
      assert Elems(refs[..0]) == {};
      for i := 0 to |refs|
        invariant slots == Rewired(s0, pos, c, Elems(refs[..i]))
        invariant widths == GrowAll(w0, refs[..i])
        invariant forall q :: q in slots ==> InBounds(widths, q)
      {
        ElemsPrefix(refs, i);
        assert refs[..i + 1][..i] == refs[..i];
        HookOne(pos, c, refs[i], s0, Elems(refs[..i]));
      }
      assert refs[..|refs|] == refs;
    }

    /**
     * One turn of the rewiring loop of `Cell::Set`: materialize the cell at
     * `q` if its slot is null, then add the edge both ways.
     */
    method HookOne(pos: Pos, c: Content, q: Pos, ghost s0: map<Pos, Cell>, ghost R: set<Pos>)
      requires pos in s0 && IsValid(q)
      requires slots == Rewired(s0, pos, c, R)
      requires forall p :: p in slots ==> InBounds(widths, p)
      modifies this
      ensures widths == Grow(old(widths), q)
      ensures slots == Rewired(s0, pos, c, R + {q})
      ensures forall p :: p in slots ==> InBounds(widths, p)
    {
      if q !in slots {
        // `sheet_.SetCell(q, "")`: the new cell's `Set("")` changes nothing.
        Materialize(q);
      }
      RewiredAdd(s0, pos, c, R, q);
      slots := slots[pos := slots[pos].(precedents := slots[pos].precedents + {q})];
      slots := slots[q := slots[q].(dependents := slots[q].dependents + {pos})];
    }

    /** `Cell::Clear`: only the content changes; edges and cache stay. */
    method Clear(pos: Pos)
      requires Valid() && pos in slots
      modifies this
      ensures Valid() && widths == old(widths)
      ensures slots == old(slots)[pos := old(slots)[pos].(content := Empty)]
    {
      slots := slots[pos := slots[pos].(content := Empty)];
    }

    /** `Sheet::ClearCell`. */
    method ClearCell(pos: Pos) returns (status: Status)
      requires Valid()
      modifies this
      ensures Valid() && widths == old(widths)
      ensures !IsValid(pos) ==> status == InvalidPosition && slots == old(slots)
      ensures IsValid(pos) ==> (status == Done &&
                slots == if pos in old(slots) then old(slots)[pos := old(slots)[pos].(content := Empty)] else old(slots))
    {
      if !IsValid(pos) {
        return InvalidPosition;
      }
      if InBounds(widths, pos) {
        if pos in slots {
          Clear(pos);
        }
      }
      status := Done;
    }

    /**
     * `Cell::ClearCache` on the cell at `pos`: if it holds a cached value,
     * drop it and do the same for each dependent.
     */
    method ClearCache(pos: Pos)
      requires Valid() && pos in slots
      modifies this
      ensures Valid() && widths == old(widths) && slots.Keys == old(slots).Keys
      ensures CachesOnlyCleared(old(slots), slots)
      ensures slots[pos].cache == None
      ensures old(slots[pos].cache).None? ==> slots == old(slots)
      ensures old(slots[pos].cache).Some? ==> forall d :: d in slots[pos].dependents ==> slots[d].cache == None
      ensures ChangedOnlyReaders(old(slots), slots, pos)
      ensures ClearedClosed(old(slots), slots)
      decreases |CachedCells(slots)|
    {
      if slots[pos].cache.Some? {
        ghost var s0 := slots;
        slots := slots[pos := slots[pos].(cache := None)];
        DropOneCache(s0, pos);
        StripCacheWellFormed(widths, s0, slots);
        var deps := slots[pos].dependents;
        var todo := deps;
        ghost var done: set<Pos> := {};
        while todo != {}
          invariant Valid() && widths == old(widths) && slots.Keys == s0.Keys
          invariant CachesOnlyCleared(s0, slots)
          invariant slots[pos].cache == None && slots[pos].dependents == deps
          invariant done + todo == deps
          invariant forall d :: d in done ==> slots[d].cache == None
          invariant CachedCells(slots) <= CachedCells(s0) - {pos}
          invariant ChangedOnlyReaders(s0, slots, pos) && ClearedClosedExcept(s0, slots, pos)
          decreases todo
        {
          var d :| d in todo;
          MoveOne(done, todo, d);
          todo := todo - {d};
          SubsetSmaller(CachedCells(slots), CachedCells(s0), pos);
          ghost var mid := slots;
          assert pos in s0[d].precedents;
          ClearCache(d);
          ReadersTrans(s0, mid, slots, pos, d);
          SettledTrans(s0, mid, slots, pos);
          ClearedTrans(s0, mid, slots);
          ClearedKeepsGraph(mid, slots);
          forall e | e in done
            ensures slots[e].cache == None
          {
            assert mid[e].cache == None;
          }
          done := done + {d};
        }
        assert Settled(slots, pos);
      }
    }

    /**
     * `Cell::IsCircularDependency`: a depth-first walk from `pos` along the
     * existing precedent edges, with a visited set, looking for a cell that
     * the new content references.
     */
    method IsCircularDependency(pos: Pos, c: Content) returns (circular: bool)
      requires Closed(slots) && pos in slots
      ensures circular == Circular(slots, pos, ContentRefs(c))
    {
      var refs := ContentRefs(c);
      if |refs| == 0 {
        return false;
      }
      var targets := ConcreteCells(refs);
      forall q | q in refs && Reachable(slots, pos, q)
        ensures q in targets
      {
        ReachableEndsInMap(slots, pos, q);
      }
      circular := Search(pos, targets);
    }

    /** The worklist loop of the cycle check: is any of `targets` reachable from `pos`? */
    method Search(pos: Pos, targets: set<Pos>) returns (found: bool)
      requires Closed(slots) && pos in slots
      ensures found <==> exists q :: q in targets && Reachable(slots, pos, q)
    {
      var visited: set<Pos> := {};
      var stack := [pos];
      ReachableSelf(slots, pos);
      while stack != []
        invariant visited <= slots.Keys
        invariant AllReachable(slots, pos, stack)
        invariant forall v :: v in visited ==> v !in targets
        invariant Frontier(slots, visited, stack)
        invariant pos in visited || pos in Elems(stack)
        decreases |slots.Keys - visited|, VisitedEntries(stack, visited)
      {
        var cur := stack[|stack| - 1];
        ghost var stack0, v0 := stack, visited;
        ElemsPop(stack);
        stack := stack[..|stack| - 1];
        ghost var popped := stack;
        visited := visited + {cur};
        if cur in targets {
          assert Reachable(slots, pos, cur);
          return true;
        }
        stack := PushUnvisited(pos, cur, stack, visited);
        VisitKeepsFrontier(slots, v0, popped, cur, stack);
        VisitDecreases(slots.Keys, v0, stack0, stack);
      }
      forall q | q in targets && Reachable(slots, pos, q)
        ensures false
      {
        assert Elems(stack) == {};
        ClosedSetHoldsReachable(slots, visited, pos, q);
      }
      return false;
    }

    /** The cells at the referenced positions, as the cycle check collects them. */
    method ConcreteCells(refs: seq<Pos>) returns (targets: set<Pos>)
      ensures targets == Elems(refs) * slots.Keys
    {
      targets := {};
      for i := 0 to |refs|
        invariant targets == Elems(refs[..i]) * slots.Keys
      {
        assert refs[..i + 1] == refs[..i] + [refs[i]];
        if refs[i] in slots {
          targets := targets + {refs[i]};
        }
      }
      assert refs[..|refs|] == refs;
    }

    /** The inner loop of the cycle check: push each precedent of `cur` that is not yet visited. */
    method PushUnvisited(ghost pos: Pos, cur: Pos, stack: seq<Pos>, visited: set<Pos>) returns (stack': seq<Pos>)
      requires cur in slots && slots[cur].precedents <= slots.Keys && Reachable(slots, pos, cur)
      requires AllReachable(slots, pos, stack)
      ensures AllReachable(slots, pos, stack')
      ensures Elems(stack') == Elems(stack) + (slots[cur].precedents - visited)
      ensures VisitedEntries(stack', visited) == VisitedEntries(stack, visited)
    {
      stack' := stack;
      var todo := slots[cur].precedents;
      while todo != {}
        invariant todo <= slots[cur].precedents
        invariant AllReachable(slots, pos, stack')
        invariant Elems(stack') == Elems(stack) + ((slots[cur].precedents - todo) - visited)
        invariant VisitedEntries(stack', visited) == VisitedEntries(stack, visited)
        decreases todo
      {
        var q :| q in todo;
        todo := todo - {q};
        if q !in visited {
          ReachableStep(slots, pos, cur, q);
          AllReachablePush(slots, pos, stack', q);
          VisitedEntriesPush(stack', visited, q);
          ElemsSnoc(stack', q);
          stack' := stack' + [q];
        }
      }
    }

    /**
     * `Sheet::GetPrintableSize`: the smallest rectangle anchored at the
     * origin that holds every cell with non-empty text.
     */
    method GetPrintableSize() returns (rows: int, cols: int)
      requires Valid()
      ensures forall p :: Printable(slots, p) ==> p.row < rows && p.col < cols
      ensures rows > 0 ==> exists p :: Printable(slots, p) && p.row == rows - 1
      ensures cols > 0 ==> exists p :: Printable(slots, p) && p.col == cols - 1
      ensures rows >= 0 && cols >= 0
      ensures rows == 0 <==> forall p :: !Printable(slots, p)
    {
      rows, cols := 0, 0;
      var y := 0;
      while y < |widths|
        invariant 0 <= y <= |widths|
        invariant rows >= 0 && cols >= 0 && (rows == 0 <==> cols == 0)
        invariant forall p :: Printable(slots, p) && p.row < y ==> p.row < rows && p.col < cols
        invariant rows > 0 ==> exists p :: Printable(slots, p) && p.row == rows - 1
        invariant cols > 0 ==> exists p :: Printable(slots, p) && p.col == cols - 1
      {
        var x := 0;
        while x < widths[y]
          invariant 0 <= x <= widths[y]
          invariant rows >= 0 && cols >= 0 && (rows == 0 <==> cols == 0)
          invariant forall p :: Printable(slots, p) && (p.row < y || (p.row == y && p.col < x)) ==>
                      p.row < rows && p.col < cols
          invariant rows > 0 ==> exists p :: Printable(slots, p) && p.row == rows - 1
          invariant cols > 0 ==> exists p :: Printable(slots, p) && p.col == cols - 1
        {
          var p := Pos(y, x);
          if p in slots {
            if ContentText(slots[p].content) != "" {
              if rows < y + 1 {
                rows := y + 1;
              }
              if cols < x + 1 {
                cols := x + 1;
              }
            }
          }
          x := x + 1;
        }
        y := y + 1;
      }
      assert forall p :: Printable(slots, p) ==> IsValid(p) && InBounds(widths, p);
    }
  }
}
