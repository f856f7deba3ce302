/** The opaque collaborators of the query metadata: expressions, join types,
    order specifiers, join clauses and the error a join-adding call reports. */
module Expressions {

  datatype Option<+T> = None | Some(value: T)

  /** A query expression. Only two things about an expression matter to the
      metadata: equality (used to recognise a target that is already joined)
      and, for a path, whether it hangs below a parent path. Everything else
      (columns, literals, predicates) is an opaque `OtherExpr`. */
  datatype Expr =
    | PathExpr(name: string, parent: Option<Expr>)
    | OtherExpr(id: nat)

  /** A path with a parent segment: such a path may not be a join source.
      Only paths are examined; any other expression passes. */
  predicate IsNonRootPath(e: Expr): (b: bool)
    ensures b ==> e.PathExpr?
    ensures e.PathExpr? ==> (b <==> e.parent != None)
  {
    match e
    case PathExpr(_, parent) => parent.Some?
    case OtherExpr(_) => false
  }

  datatype JoinType = DefaultJoin | InnerJoin | LeftJoin | RightJoin | FullJoin

  datatype Order = Asc | Desc

  /** An ordering over a target expression, stored verbatim. */
  datatype OrderSpecifier = OrderSpecifier(order: Order, target: Expr)

  /** One join clause; `condition` is absent until a join condition is set. */
  datatype JoinExpression = JoinExpression(joinType: JoinType, target: Expr, condition: Option<Expr>)

  /** Outcome of a join-adding call: the rejected path stands for the
      IllegalArgumentException "Only root paths are allowed for joins". */
  datatype Status = Ok | InvalidJoinSource(path: Expr)

  /** ensureRoot: a path with a parent is rejected, naming that path;
      everything else passes. */
  function EnsureRoot(e: Expr): (s: Status)
    ensures s == Ok <==> !IsNonRootPath(e)
    ensures s != Ok ==> s == InvalidJoinSource(e)
  {
    if e.PathExpr? && e.parent != None then InvalidJoinSource(e) else Ok
  }
}
