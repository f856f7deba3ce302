/** Call sequences on the aggregate whose results follow from the
    contracts of QueryMetadata alone. */
module Scenarios {
  import opened Expressions
  import opened Modifiers
  import opened Joins
  import opened Metadata

  /** The same source twice, then a join of it under any type: one clause. */
  method Deduplication(e: Expr, t: JoinType) returns (joins: seq<JoinExpression>, s1: Status, s2: Status, s3: Status)
    ensures !IsNonRootPath(e) ==> joins == [JoinExpression(DefaultJoin, e, None)] && s1 == s2 == s3 == Ok
    ensures IsNonRootPath(e) ==> joins == [] && s1 == s2 == s3 == InvalidJoinSource(e)
  {
    var m := new QueryMetadata();
    s1 := m.AddFrom([e]);
    s2 := m.AddFrom([e]);
    s3 := m.AddJoin(t, e);
    joins := m.joins;
  }

  /** A source repeated within one addFrom call is joined once. */
  method RepeatedArgument(a: Expr) returns (status: Status, joins: seq<JoinExpression>)
    requires !IsNonRootPath(a)
    ensures status == Ok
    ensures joins == [JoinExpression(DefaultJoin, a, None)]
  {
    var m := new QueryMetadata();
    assert RootedPrefix([a, a]) == 2 && [a, a][..2] == [a, a];
    assert NewTargets({}, [a, a]) == [a] by {
      assert [a, a][1..] == [a] && [a][1..] == [];
      assert NewTargets({a}, [a]) == NewTargets({a}, []) == [];
      assert NewTargets({}, [a, a]) == [a] + NewTargets({} + {a}, [a]);
    }
    status := m.AddFrom([a, a]);
    joins := m.joins;
  }

  /** No WHERE predicate until one is appended; then the conjuncts in order. */
  method FilterAbsence(p1: Expr, p2: Expr, q: Expr) returns (before: Option<seq<Expr>>, after: Option<seq<Expr>>, having: Option<seq<Expr>>)
    ensures before == None
    ensures after == Some([p1, p2])
    ensures having == Some([q])
  {
    var m := new QueryMetadata();
    before := m.GetWhere();
    m.AddWhere([p1]);
    m.AddHaving([q]);
    m.AddWhere([p2]);
    assert m.where == [p1, p2] && m.having == [q];
    after := m.GetWhere();
    having := m.GetHaving();
  }

  /** A join condition with no join is dropped; otherwise it lands on the
      last clause only. */
  method ConditionTargeting(t: JoinType, x: Expr, y: Expr, c: Expr) returns (empty: seq<JoinExpression>, joins: seq<JoinExpression>)
    requires !IsNonRootPath(x) && !IsNonRootPath(y) && x != y
    ensures empty == []
    ensures joins == [JoinExpression(t, x, None), JoinExpression(t, y, Some(c))]
  {
    var m := new QueryMetadata();
    m.AddJoinCondition(c);
    empty := m.joins;
    var s := m.AddJoin(t, x);
    s := m.AddJoin(t, y);
    m.AddJoinCondition(c);
    joins := m.joins;
  }

  /** Limit and offset merge; a cleared state does not bring back an offset. */
  method PaginationMerge() returns (m1: Option<QueryModifiers>, m2: Option<QueryModifiers>, m3: Option<QueryModifiers>, m4: Option<QueryModifiers>)
    ensures m1 == Some(QueryModifiers(Some(10), None))
    ensures m2 == Some(QueryModifiers(Some(10), Some(20)))
    ensures m3 == None
    ensures m4 == Some(QueryModifiers(Some(5), None))
  {
    var m := new QueryMetadata();
    m.SetModifiers(None);
    m.SetLimit(Some(10));
    m1 := m.modifiers;
    m.SetOffset(Some(20));
    m2 := m.modifiers;
    m.SetModifiers(None);
    m3 := m.modifiers;
    m.SetLimit(Some(5));
    m4 := m.modifiers;
  }

  /** addFrom(parent, child) commits the root parent and then fails on the
      child path, which stays out of the join list. */
  method RootPathRejection(parent: Expr, name: string) returns (status: Status, joins: seq<JoinExpression>)
    requires !IsNonRootPath(parent)
    ensures status == InvalidJoinSource(PathExpr(name, Some(parent)))
    ensures joins == [JoinExpression(DefaultJoin, parent, None)]
  {
    var m := new QueryMetadata();
    var child := PathExpr(name, Some(parent));
    assert RootedPrefix([parent, child]) == 1 && [parent, child][..1] == [parent];
    assert NewTargets({}, [parent]) == [parent] by {
      assert [parent][1..] == [];
    }
    status := m.AddFrom([parent, child]);
    joins := m.joins;
  }

  /** A two-table query with a join condition, a filter and a page. */
  method EndToEnd(a: Expr, b: Expr, on: Expr, active: Expr)
    returns (joins: seq<JoinExpression>, where: Option<seq<Expr>>, page: Option<QueryModifiers>)
    requires !IsNonRootPath(a) && !IsNonRootPath(b) && a != b
    ensures joins == [JoinExpression(DefaultJoin, a, None), JoinExpression(InnerJoin, b, Some(on))]
    ensures where == Some([active])
    ensures page == Some(QueryModifiers(Some(10), Some(20)))
  {
    var m := new QueryMetadata();
    assert RootedPrefix([a]) == 1 && [a][..1] == [a];
    assert NewTargets({}, [a]) == [a] by {
      assert [a][1..] == [];
    }
    var s := m.AddFrom([a]);
    s := m.AddJoin(InnerJoin, b);
    m.AddJoinCondition(on);
    m.AddWhere([active]);
    assert m.where == [active];
    m.SetLimit(Some(10));
    m.SetOffset(Some(20));
    joins := m.joins;
    where := m.GetWhere();
    page := m.modifiers;
  }
}
