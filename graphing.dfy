/**
 * The list of plotted functions of the graphing tab (class GraphingCalculator
 * in calculator/graphing.py): an insertion-ordered list of distinct,
 * non-empty expressions and the current expression.
 */
module Graphing {

  /** No expression occurs twice. */
  ghost predicate Distinct(fs: seq<string>) {
    forall i, j :: 0 <= i < j < |fs| ==> fs[i] != fs[j]
  }

  class GraphingCalculator {
    var functions: seq<string>
    var currentFunction: string

    /** The list holds no empty expression and no duplicate. */
    ghost predicate Valid()
      reads this
    {
      "" !in functions && Distinct(functions)
    }

    constructor ()
      ensures Valid()
      ensures functions == [] && currentFunction == ""
    {
      functions := [];
      currentFunction := "";
    }

    /** `set_function(expr)`: changes only the current expression. */
    method SetFunction(expr: string)
      requires Valid()
      modifies this
      ensures Valid()
      ensures currentFunction == expr
      ensures functions == old(functions)
    {
      currentFunction := expr;
    }

    /**
     * `add_function(expr)`: appends a non-empty expression that is not yet
     * listed, and reports whether it did.
     */
    method AddFunction(expr: string) returns (added: bool)
      requires Valid()
      modifies this
      ensures Valid()
      ensures added <==> expr != "" && expr !in old(functions)
      ensures functions == if added then old(functions) + [expr] else old(functions)
      ensures currentFunction == old(currentFunction)
    {
      if expr != "" && expr !in functions {
        functions := functions + [expr];
        return true;
      }
      return false;
    }

    /** `clear_functions()`: empties the list and the current expression. */
    method ClearFunctions()
      modifies this
      ensures Valid()
      ensures functions == [] && currentFunction == ""
    {
      functions := [];
      currentFunction := "";
    }

    /** `get_functions()`: a copy of the list, in insertion order. */
    method GetFunctions() returns (fs: seq<string>)
      ensures fs == functions
    {
      fs := functions;
    }
  }

  /** Adding the same expression twice lists it once; the second call reports false. */
  method AddTwice(expr: string) returns (first: bool, second: bool, fs: seq<string>)
    requires expr != ""
    ensures first && !second && fs == [expr]
  {
    var g := new GraphingCalculator();
    first := g.AddFunction(expr);
    second := g.AddFunction(expr);
    fs := g.GetFunctions();
  }
}
