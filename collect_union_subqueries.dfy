/**
 * The clauses that close a union subquery: the rows bound to the result
 * variable are sorted and paginated in a `WITH`, then collected back into
 * that variable by a `RETURN` — as a list for a list field, or as the first
 * element for a single field.
 */
module CollectUnionSubqueries {
  import opened Wrappers
  import opened CypherIR

  /**
   * `createWithSortAndPaginationClauses`: a `WITH variable` clause, handed
   * to the sort and pagination step together with the options and the
   * variable as its target.
   */
  function CreateWithSortAndPaginationClauses<O>(variable: Variable, optionsInput: O, addSortAndLimit: (O, Variable, With) -> With): With {
    addSortAndLimit(optionsInput, variable, With([variable], []))
  }

  /** The `RETURN` expression: `collect(v)`, wrapped in `head` unless the field is a list. */
  function ReturnProjection(resultVariable: Variable, isArray: bool): Expr {
    if isArray then Collect(Var(resultVariable)) else Head(Collect(Var(resultVariable)))
  }

  /** `collectUnionSubqueriesResults`: the `WITH` clause, then `RETURN projection AS resultVariable`. */
  function CollectUnionSubqueriesResults<O>(resultVariable: Variable, optionsInput: O, isArray: bool,
                                            addSortAndLimit: (O, Variable, With) -> With): (c: Clause)
    ensures c.Concat? && |c.clauses| == 2
    ensures c.clauses[0] == WithClause(CreateWithSortAndPaginationClauses(resultVariable, optionsInput, addSortAndLimit))
    ensures c.clauses[1] == Return([AliasedColumn(ReturnProjection(resultVariable, isArray), resultVariable)])
  {
    var withSortClause := CreateWithSortAndPaginationClauses(resultVariable, optionsInput, addSortAndLimit);
    var returnProjection := ReturnProjection(resultVariable, isArray);
    Concat([WithClause(withSortClause), Return([AliasedColumn(returnProjection, resultVariable)])])
  }

  /** The `RETURN` first column of the clauses built for `isArray`. */
  function ReturnedExpr<O>(resultVariable: Variable, optionsInput: O, isArray: bool, addSortAndLimit: (O, Variable, With) -> With): Expr {
    CollectUnionSubqueriesResults(resultVariable, optionsInput, isArray, addSortAndLimit).clauses[1].columns[0].expr
  }

  /** For a list field the result variable is collected. */
  lemma ArrayCollects<O>(v: Variable, optionsInput: O, addSortAndLimit: (O, Variable, With) -> With)
    ensures ReturnedExpr(v, optionsInput, true, addSortAndLimit) == Collect(Var(v))
  {
  }

  /** For a single field the collected list is reduced to its first element. */
  lemma SingleTakesHead<O>(v: Variable, optionsInput: O, addSortAndLimit: (O, Variable, With) -> With)
    ensures ReturnedExpr(v, optionsInput, false, addSortAndLimit) == Head(Collect(Var(v)))
  {
  }

  /**
   * The `RETURN` has one column, the pair of the projection and the result
   * variable: the collected value is bound back to the variable it came from.
   */
  lemma ReturnBindsResultVariable<O>(v: Variable, optionsInput: O, isArray: bool, addSortAndLimit: (O, Variable, With) -> With)
    ensures var c := CollectUnionSubqueriesResults(v, optionsInput, isArray, addSortAndLimit);
      var columns := c.clauses[1].columns;
      |columns| == 1 && columns[0].AliasedColumn? && columns[0].alias == v &&
      ColumnVariables(columns[0]) == {v} && ReturnBindings(columns) == {v}
  {
    var columns := CollectUnionSubqueriesResults(v, optionsInput, isArray, addSortAndLimit).clauses[1].columns;
    assert ColumnBinding(columns[0]) == Some(v);
    assert v in ReturnBindings(columns);
    assert ExprVariables(Collect(Var(v))) == {v};
    assert ExprVariables(Head(Collect(Var(v)))) == {v};
  }

  /** The sorting `WITH` is the same whatever `isArray` is, and targets the result variable. */
  lemma WithIndependentOfIsArray<O>(v: Variable, optionsInput: O, addSortAndLimit: (O, Variable, With) -> With)
    ensures CollectUnionSubqueriesResults(v, optionsInput, true, addSortAndLimit).clauses[0] ==
            CollectUnionSubqueriesResults(v, optionsInput, false, addSortAndLimit).clauses[0] ==
            WithClause(addSortAndLimit(optionsInput, v, With([v], [])))
  {
  }

  /** The two results differ only in the `RETURN` expression. */
  lemma ArrayAndSingleDifferInProjectionOnly<O>(v: Variable, optionsInput: O, addSortAndLimit: (O, Variable, With) -> With)
    ensures var a := CollectUnionSubqueriesResults(v, optionsInput, true, addSortAndLimit);
      var s := CollectUnionSubqueriesResults(v, optionsInput, false, addSortAndLimit);
      s == Concat([a.clauses[0], Return([AliasedColumn(Head(a.clauses[1].columns[0].expr), v)])])
  {
  }

  /** The projection aggregates, and denotes a list exactly for a list field. */
  lemma ProjectionShape(v: Variable, isArray: bool)
    ensures IsAggregate(ReturnProjection(v, isArray))
    ensures ShapeOf(ReturnProjection(v, isArray)) == Some(if isArray then List else Single)
  {
    assert ShapeOf(Var(v)) == Some(Single) && !IsAggregate(Var(v));
    assert ShapeOf(Collect(Var(v))) == Some(List);
  }

  /**
   * When the sort and pagination step keeps the projection, the clauses
   * are well scoped wherever the result variable is in scope, and leave
   * only the result variable in scope.
   */
  lemma ClausesWellScoped<O>(v: Variable, optionsInput: O, isArray: bool, addSortAndLimit: (O, Variable, With) -> With, scope: set<Variable>)
    requires v in scope
    requires addSortAndLimit(optionsInput, v, With([v], [])).projection == [v]
    ensures ScopeAfter(CollectUnionSubqueriesResults(v, optionsInput, isArray, addSortAndLimit), scope) == Some({v})
  {
    var c := CollectUnionSubqueriesResults(v, optionsInput, isArray, addSortAndLimit);
    var w := addSortAndLimit(optionsInput, v, With([v], []));
    assert (set i | 0 <= i < |w.projection| :: w.projection[i]) == {v} by {
      assert w.projection[0] == v;
    }
    assert ScopeAfter(c.clauses[0], scope) == Some({v});
    ReturnBindsResultVariable(v, optionsInput, isArray, addSortAndLimit);
    assert ScopeAfter(c.clauses[1], {v}) == Some({v});
    var rest := c.clauses[1..];
    assert rest[0] == c.clauses[1] && rest[1..] == [];
    assert ScopeAfterAll(rest, {v}) == Some({v});
    assert ScopeAfterAll(c.clauses, scope) == Some({v});
  }

  /** A scope without the result variable is refused by the `WITH`. */
  lemma ClausesNeedResultVariable<O>(v: Variable, optionsInput: O, isArray: bool, addSortAndLimit: (O, Variable, With) -> With, scope: set<Variable>)
    requires v !in scope
    requires addSortAndLimit(optionsInput, v, With([v], [])).projection == [v]
    ensures ScopeAfter(CollectUnionSubqueriesResults(v, optionsInput, isArray, addSortAndLimit), scope) == None
  {
    var c := CollectUnionSubqueriesResults(v, optionsInput, isArray, addSortAndLimit);
    var w := addSortAndLimit(optionsInput, v, With([v], []));
    assert c.clauses[0] == WithClause(w) && w.projection[0] !in scope;
    assert ScopeAfter(c.clauses[0], scope) == None;
  }

  /**
   * Over the rows the `WITH` leaves bound to the result variable, a list
   * field receives the non-null values in row order and a single field the
   * first of them, or null when there is none.
   */
  lemma ReturnedValue(v: Variable, isArray: bool, rows: seq<Value>)
    ensures var found := NonNull(rows);
      Evaluate(ReturnProjection(v, isArray), v, rows) ==
        Some(if isArray then ListValue(found) else if found == [] then Null else found[0])
  {
  }

  /** The single-field result is the first element of the list-field result, or null when that list is empty. */
  lemma SingleIsFirstOfArray(v: Variable, rows: seq<Value>)
    ensures var list := Evaluate(ReturnProjection(v, true), v, rows);
      list.Some? && list.value.ListValue? &&
      Evaluate(ReturnProjection(v, false), v, rows) ==
        Some(if list.value.items == [] then Null else list.value.items[0])
  {
  }

  /** The single-field result is null exactly when no row holds a value. */
  lemma {:induction false} SingleIsNullIffNoValue(v: Variable, rows: seq<Value>)
    ensures Evaluate(ReturnProjection(v, false), v, rows) == Some(Null) <==> forall i :: 0 <= i < |rows| ==> rows[i] == Null
    decreases |rows|
  {
    NonNullEmpty(rows);
  }

  lemma {:induction false} NonNullEmpty(rows: seq<Value>)
    ensures NonNull(rows) == [] <==> forall i :: 0 <= i < |rows| ==> rows[i] == Null
    decreases |rows|
  {
    if rows != [] {
      NonNullEmpty(rows[1..]);
      if rows[0] == Null {
        assert forall i :: 0 < i < |rows| ==> rows[i] == rows[1..][i - 1];
      }
    }
  }
}
