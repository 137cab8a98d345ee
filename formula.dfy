/**
 * The formula bridge (table/formula.cpp): the reference resolver handed to the
 * external expression evaluator, the conversion of formula errors into values,
 * the filtering of the referenced-cell list, and the printing of errors.
 *
 * The expression parser and evaluator are not part of this model: a parsed
 * expression is an `Ast` that exposes its printed form and the positions it
 * mentions, and executing it is a function parameter.
 */
module Formulas {
  import opened Common

  /** `operator<<` for `FormulaError`: the category is ignored. */
  function ErrorText(e: Category): string {
    "#DIV/0!"
  }

  lemma ErrorTextIgnoresCategory(a: Category, b: Category)
    ensures ErrorText(a) == ErrorText(b) == "#DIV/0!"
  {
  }

  /**
   * A parsed expression: the text the parser prints for it, and the positions
   * it mentions, in order, possibly repeated and possibly invalid.
   */
  datatype Ast = Ast(printed: string, cells: seq<Pos>)

  /** What `std::stod` does with a string: a number and the count of characters it used, or one of its two exceptions. */
  datatype StodResult = Converted(x: real, consumed: nat) | InvalidArgument | OutOfRange

  /**
   * What reading a referenced cell through the sheet gives: no cell to read
   * (`GetCell` returned null), the cell's value, or a failure that is not a
   * `FormulaError` (an exception other code throws, or a crash).
   */
  datatype CellRead = NoCell | Read(v: CellValue) | Crashed

  /**
   * The outcome of resolving one reference, and of executing an expression:
   * a number, a thrown `FormulaError`, or another exception that is not caught
   * by `Formula::Evaluate`.
   */
  datatype Resolved = Got(x: real) | Raised(category: Category) | Escaped

  /** The public result of `Formula::Evaluate`: a number or an error category. */
  datatype FormulaValue = Numeric(x: real) | Failed(category: Category)

  /** `Formula::Evaluate` either returns a `FormulaValue` or lets an exception through. */
  datatype Evaluation = Returned(v: FormulaValue) | Thrown

  /** The resolver lambda of `Formula::Evaluate`. */
  function Resolve(p: Pos, lookup: Pos -> CellRead, stod: string -> StodResult): (r: Resolved)
    ensures !IsValid(p) ==> r == Raised(Ref)
    ensures IsValid(p) && (lookup(p) == NoCell || lookup(p) == Read(Str(""))) ==> r == Got(0.0)
    ensures IsValid(p) && lookup(p).Read? && lookup(p).v.Num? ==> r == Got(lookup(p).v.x)
    ensures IsValid(p) && lookup(p).Read? && lookup(p).v.Err? ==> r == Raised(lookup(p).v.category)
    ensures IsValid(p) && lookup(p).Read? && lookup(p).v.Str? && lookup(p).v.s != "" ==>
              match stod(lookup(p).v.s)
              case Converted(x, n) => r == if n < |lookup(p).v.s| then Raised(Value) else Got(x)
              case _ => r == Escaped
    ensures r.Escaped? ==> IsValid(p) && !lookup(p).NoCell?
  {
    if !IsValid(p) then
      Raised(Ref)
    else
      match lookup(p)
      case NoCell => Got(0.0)
      case Crashed => Escaped
      case Read(v) =>
        match v
        case Num(x) => Got(x)
        case Err(c) => Raised(c)
        case Str(s) =>
          if s == "" then Got(0.0)
          else
            match stod(s)
            case Converted(x, n) => if n < |s| then Raised(Value) else Got(x)
            case _ => Escaped
  }

  function Resolver(lookup: Pos -> CellRead, stod: string -> StodResult): Pos -> Resolved {
    p => Resolve(p, lookup, stod)
  }

  /**
   * `Formula::Evaluate`: run the expression with the resolver; a `FormulaError`
   * it raises becomes the result, anything else passes through.
   */
  function Evaluate(ast: Ast, lookup: Pos -> CellRead, stod: string -> StodResult,
                    execute: (Ast, Pos -> Resolved) -> Resolved): (r: Evaluation)
    ensures r == Thrown <==> execute(ast, Resolver(lookup, stod)) == Escaped
    ensures forall c: Category :: r == Returned(Failed(c)) <==> execute(ast, Resolver(lookup, stod)) == Raised(c)
    ensures forall x: real :: r == Returned(Numeric(x)) <==> execute(ast, Resolver(lookup, stod)) == Got(x)
  {
    match execute(ast, Resolver(lookup, stod))
    case Got(x) => Returned(Numeric(x))
    case Raised(c) => Returned(Failed(c))
    case Escaped => Thrown
  }

  /** The valid positions of `cells`, in their order. */
  function ValidOnly(cells: seq<Pos>): seq<Pos>
    decreases |cells|
  {
    if cells == [] then []
    else
      var init := ValidOnly(cells[..|cells| - 1]);
      if IsValid(cells[|cells| - 1]) then init + [cells[|cells| - 1]] else init
  }

  /** A position is kept exactly when it occurs in the input and is valid. */
  lemma {:induction false} ValidOnlyMembers(cells: seq<Pos>)
    ensures forall q :: q in ValidOnly(cells) <==> q in cells && IsValid(q)
    ensures |ValidOnly(cells)| <= |cells|
    decreases |cells|
  {
    if cells != [] {
      var init := cells[..|cells| - 1];
      ValidOnlyMembers(init);
      assert cells == init + [cells[|cells| - 1]];
    }
  }

  /** Filtering distributes over concatenation: nothing is reordered, added or dropped except invalid positions. */
  lemma {:induction false} ValidOnlyAppend(a: seq<Pos>, b: seq<Pos>)
    ensures ValidOnly(a + b) == ValidOnly(a) + ValidOnly(b)
    decreases |b|
  {
    if b == [] {
      assert a + b == a;
    } else {
      var b' := b[..|b| - 1];
      ValidOnlyAppend(a, b');
      assert (a + b)[..|a + b| - 1] == a + b';
    }
  }

  /** A list of valid positions is returned as it is. */
  lemma {:induction false} ValidOnlyKeepsValid(cells: seq<Pos>)
    requires forall i :: 0 <= i < |cells| ==> IsValid(cells[i])
    ensures ValidOnly(cells) == cells
    decreases |cells|
  {
    if cells != [] {
      ValidOnlyKeepsValid(cells[..|cells| - 1]);
    }
  }

  /** `Formula::GetReferencedCells`: the push_back loop over the parser's list. */
  method GetReferencedCells(ast: Ast) returns (result: seq<Pos>)
    ensures result == ValidOnly(ast.cells)
  {
    result := [];
    for i := 0 to |ast.cells|
      invariant result == ValidOnly(ast.cells[..i])
    {
      assert ast.cells[..i + 1][..i] == ast.cells[..i];
      if IsValid(ast.cells[i]) {
        result := result + [ast.cells[i]];
      }
    }
    assert ast.cells[..|ast.cells|] == ast.cells;
  }
}
