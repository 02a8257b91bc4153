/**
 * The fragment of the Cypher query builder's clause tree that the union
 * subquery translation builds: variables, `collect` and `head`, `WITH`
 * with its sorting and pagination modifiers, `RETURN`, and the
 * concatenation of clauses. Beside the tree: which expressions denote a
 * single value and which a list, which variables a clause leaves in
 * scope, and what the aggregating expressions evaluate to over the rows
 * bound to a variable.
 */
module CypherIR {
  import opened Wrappers

  /** A query variable; the builder names variables only when it renders them. */
  datatype Variable = Variable(id: nat)

  datatype Expr =
    | Var(variable: Variable)
    | Collect(arg: Expr)
    | Head(arg: Expr)

  datatype Modifier =
    | OrderBy(property: string, descending: bool)
    | Skip(count: nat)
    | Limit(count: nat)

  /** `WITH projection ORDER BY ... SKIP ... LIMIT ...`. */
  datatype With = With(projection: seq<Variable>, modifiers: seq<Modifier>)

  /** A `RETURN` column: an expression, or an expression with its alias (the builder's `[expr, alias]` pair). */
  datatype ReturnColumn =
    | Column(expr: Expr)
    | AliasedColumn(expr: Expr, alias: Variable)

  datatype Clause =
    | WithClause(with: With)
    | Return(columns: seq<ReturnColumn>)
    | Concat(clauses: seq<Clause>)

  // ---------------------------------------------------------------------
  // Shapes

  datatype Shape = Single | List

  /**
   * The shape of an expression: a variable is one value per row, `collect`
   * turns single values into a list, `head` takes a list to one value.
   * Nested aggregation and `head` of a single value are refused.
   */
  function ShapeOf(e: Expr): Option<Shape> {
    match e
    case Var(_) => Some(Single)
    case Collect(a) => if ShapeOf(a) == Some(Single) && !IsAggregate(a) then Some(List) else None
    case Head(a) => if ShapeOf(a) == Some(List) then Some(Single) else None
  }

  /** An expression that aggregates the rows, as `collect` does. */
  predicate IsAggregate(e: Expr) {
    match e
    case Var(_) => false
    case Collect(_) => true
    case Head(a) => IsAggregate(a)
  }

  // ---------------------------------------------------------------------
  // Scope

  function ExprVariables(e: Expr): set<Variable> {
    match e
    case Var(x) => {x}
    case Collect(a) => ExprVariables(a)
    case Head(a) => ExprVariables(a)
  }

  function ColumnVariables(column: ReturnColumn): set<Variable> {
    ExprVariables(column.expr)
  }

  /** The variable a `RETURN` column binds: its alias, or the variable it names. */
  function ColumnBinding(column: ReturnColumn): Option<Variable> {
    match column
    case AliasedColumn(_, alias) => Some(alias)
    case Column(Var(x)) => Some(x)
    case Column(_) => None
  }

  function ReturnBindings(columns: seq<ReturnColumn>): set<Variable> {
    set i | 0 <= i < |columns| && ColumnBinding(columns[i]).Some? :: ColumnBinding(columns[i]).value
  }

  /**
   * The variables in scope after a clause, given those in scope before it,
   * or `None` when the clause mentions a variable out of scope. `WITH`
   * keeps only what it projects; `RETURN` binds its columns.
   */
  function ScopeAfter(clause: Clause, scope: set<Variable>): Option<set<Variable>>
    decreases clause, 1
  {
    match clause
    case WithClause(w) =>
      if forall i :: 0 <= i < |w.projection| ==> w.projection[i] in scope
      then Some(set i | 0 <= i < |w.projection| :: w.projection[i])
      else None
    case Return(columns) =>
      if forall i :: 0 <= i < |columns| ==> ColumnVariables(columns[i]) <= scope
      then Some(ReturnBindings(columns))
      else None
    case Concat(clauses) => ScopeAfterAll(clauses, scope)
  }

  function ScopeAfterAll(clauses: seq<Clause>, scope: set<Variable>): Option<set<Variable>>
    decreases clauses, 0
  {
    if clauses == [] then Some(scope)
    else
      match ScopeAfter(clauses[0], scope)
      case None => None
      case Some(next) => ScopeAfterAll(clauses[1..], next)
  }

  // ---------------------------------------------------------------------
  // Evaluation of the aggregating expressions

  /** The values a query produces, as far as this fragment needs them. */
  datatype Value = Null | Node(id: nat) | ListValue(items: seq<Value>)

  function NonNull(values: seq<Value>): (r: seq<Value>)
    ensures |r| <= |values|
    ensures forall i :: 0 <= i < |r| ==> r[i] != Null
  {
    if values == [] then []
    else (if values[0] == Null then [] else [values[0]]) + NonNull(values[1..])
  }

  /**
   * The value of an expression over the rows binding `x`, one value per
   * row: `collect(x)` is the list of the non-null values in row order,
   * `head` of a list is its first element, or null for an empty list.
   */
  function Evaluate(e: Expr, x: Variable, rows: seq<Value>): Option<Value> {
    match e
    case Var(_) => None
    case Collect(Var(y)) => if y == x then Some(ListValue(NonNull(rows))) else None
    case Collect(_) => None
    case Head(a) =>
      match Evaluate(a, x, rows)
      case Some(ListValue(items)) => Some(if items == [] then Null else items[0])
      case _ => None
  }
}
