/** The query metadata aggregate: every accumulation call of the query
    builder updates one instance of QueryMetadata in place. */
module Metadata {
  import opened Expressions
  import opened Joins
  import opened Modifiers

  class QueryMetadata {
    var distinct: bool
    /** The targets already joined, consulted to skip duplicate joins. */
    var exprInJoins: set<Expr>
    var groupBy: seq<Expr>
    /** The conjuncts appended to the HAVING builder, oldest first. */
    var having: seq<Expr>
    var joins: seq<JoinExpression>
    /** Pagination; `None` stands for a null QueryModifiers. */
    var modifiers: Option<QueryModifiers>
    var orderBy: seq<OrderSpecifier>
    var projection: seq<Expr>
    var unique: bool
    /** The conjuncts appended to the WHERE builder, oldest first. */
    var where: seq<Expr>

    /** The join list has no duplicate target and the known-target set is
        exactly the set of its targets. */
    ghost predicate JoinsConsistent()
      reads this
    {
      DistinctTargets(joins) && exprInJoins == Targets(joins)
    }

    /** Consistent joins, and no join target is a non-root path. */
    ghost predicate Valid()
      reads this
    {
      JoinsConsistent() && RootTargets(joins)
    }

    constructor ()
      ensures Valid()
      ensures joins == [] && exprInJoins == {}
      ensures where == [] && having == []
      ensures groupBy == [] && orderBy == [] && projection == []
      ensures modifiers == Some(Unrestricted())
      ensures !distinct && !unique
    {
      distinct := false;
      exprInJoins := {};
      groupBy := [];
      having := [];
      joins := [];
      modifiers := Some(Unrestricted());
      orderBy := [];
      projection := [];
      unique := false;
      where := [];
    }

    /** addFrom: arguments are handled left to right; each one is
        root-checked and then, unless already joined, committed as a
        default join. The first non-root path stops the call, leaving every
        earlier argument committed. */
    method AddFrom(args: seq<Expr>) returns (status: Status)
      requires Valid()
      modifies this`joins, this`exprInJoins
      ensures Valid()
      ensures joins == AddAll(old(joins), DefaultJoin, args[..RootedPrefix(args)])
      ensures joins == old(joins) + Clauses(DefaultJoin, NewTargets(old(exprInJoins), args[..RootedPrefix(args)]))
      ensures status == (if RootedPrefix(args) == |args| then Ok else InvalidJoinSource(args[RootedPrefix(args)]))
    {
      for i := 0 to |args|
        invariant i <= RootedPrefix(args)
        invariant exprInJoins == Targets(joins)
        invariant joins == AddAll(old(joins), DefaultJoin, args[..i])
      {
        var arg := args[i];
        var root := EnsureRoot(arg);
        if root != Ok {
          CommittedPrefix(old(joins), args, i);
          return root;
        }
        ghost var before := joins;
        if arg !in exprInJoins {
          joins := joins + [JoinExpression(DefaultJoin, arg, None)];
          exprInJoins := exprInJoins + {arg};
        }
        CommitStep(old(joins), args, i, before, joins);
      }
      assert args[..|args|] == args;
      CommittedPrefix(old(joins), args, |args|);
      return Ok;
    }

    /** addJoin: the duplicate check comes first, so a known target is
        skipped whatever its join type and whether or not it is a root; a
        new target must be a root path (or no path) to be committed. */
    method AddJoin(joinType: JoinType, e: Expr) returns (status: Status)
      requires Valid()
      modifies this`joins, this`exprInJoins
      ensures Valid()
      ensures e in old(exprInJoins) ==> status == Ok && joins == old(joins)
      ensures e !in old(exprInJoins) && IsNonRootPath(e) ==>
        status == InvalidJoinSource(e) && joins == old(joins)
      ensures e !in old(exprInJoins) && !IsNonRootPath(e) ==>
        status == Ok && joins == old(joins) + [JoinExpression(joinType, e, None)]
    {
      if e !in exprInJoins {
        var root := EnsureRoot(e);
        if root != Ok {
          return root;
        }
        joins := joins + [JoinExpression(joinType, e, None)];
        exprInJoins := exprInJoins + {e};
        assert forall c | c in joins :: c in old(joins) || c.target == e;
      }
      return Ok;
    }

    /** addJoinCondition: only the last clause gets the condition. */
    method AddJoinCondition(c: Expr)
      requires Valid()
      modifies this`joins
      ensures Valid()
      ensures joins == WithLastCondition(old(joins), c)
    {
      if |joins| > 0 {
        var n := |joins| - 1;
        joins := joins[n := joins[n].(condition := Some(c))];
      }
      assert joins == WithLastCondition(old(joins), c);
    }

    method AddWhere(o: seq<Expr>)
      modifies this`where
      ensures where == old(where) + o
      ensures o != [] ==> GetWhere().Some?
    {
      var i := 0;
      while i < |o|
        invariant 0 <= i <= |o|
        invariant where == old(where) + o[..i]
      {
        assert o[..i + 1] == o[..i] + [o[i]];
        where := where + [o[i]];
        i := i + 1;
      }
      assert o[..i] == o;
    }

    method AddHaving(o: seq<Expr>)
      modifies this`having
      ensures having == old(having) + o
      ensures o != [] ==> GetHaving().Some?
    {
      var i := 0;
      while i < |o|
        invariant 0 <= i <= |o|
        invariant having == old(having) + o[..i]
      {
        assert o[..i + 1] == o[..i] + [o[i]];
        having := having + [o[i]];
        i := i + 1;
      }
      assert o[..i] == o;
    }

    /** getWhere: absent exactly when nothing was ever appended to WHERE;
        otherwise the conjuncts, in the order they were appended. */
    function GetWhere(): (r: Option<seq<Expr>>)
      reads this
      ensures r.None? <==> |where| == 0
      ensures r.Some? ==> r.value == where
    {
      if |where| > 0 then Some(where) else None
    }

    /** getHaving: as getWhere, for the HAVING builder. */
    function GetHaving(): (r: Option<seq<Expr>>)
      reads this
      ensures r.None? <==> |having| == 0
      ensures r.Some? ==> r.value == having
    {
      if |having| > 0 then Some(having) else None
    }

    method AddGroupBy(o: seq<Expr>)
      modifies this`groupBy
      ensures groupBy == old(groupBy) + o
    {
      groupBy := groupBy + o;
    }

    method AddOrderBy(o: seq<OrderSpecifier>)
      modifies this`orderBy
      ensures orderBy == old(orderBy) + o
    {
      orderBy := orderBy + o;
    }

    method AddProjection(o: seq<Expr>)
      modifies this`projection
      ensures projection == old(projection) + o
    {
      projection := projection + o;
    }

    method SetDistinct(d: bool)
      modifies this`distinct
      ensures distinct == d
    {
      distinct := d;
    }

    method SetUnique(u: bool)
      modifies this`unique
      ensures unique == u
    {
      unique := u;
    }

    /** setLimit keeps the offset of present modifiers. */
    method SetLimit(limit: Option<int>)
      modifies this`modifiers
      ensures modifiers.Some? && modifiers.value.limit == limit
      ensures modifiers.value.offset == (if old(modifiers).Some? then old(modifiers).value.offset else None)
    {
      modifiers := Some(WithLimit(modifiers, limit));
    }

    /** setOffset keeps the limit of present modifiers. */
    method SetOffset(offset: Option<int>)
      modifies this`modifiers
      ensures modifiers.Some? && modifiers.value.offset == offset
      ensures modifiers.value.limit == (if old(modifiers).Some? then old(modifiers).value.limit else None)
    {
      modifiers := Some(WithOffset(modifiers, offset));
    }

    /** setModifiers replaces the whole pagination state, null included. */
    method SetModifiers(restriction: Option<QueryModifiers>)
      modifies this`modifiers
      ensures modifiers == restriction
    {
      modifiers := restriction;
    }
  }
}
