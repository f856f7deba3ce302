/** The join clause list as a value: its targets, its invariants, and the
    functions that say what addFrom, addJoin and addJoinCondition make of it. */
module Joins {
  import opened Expressions

  function Elems(s: seq<Expr>): set<Expr> {
    set a | a in s
  }

  /** The targets of the clauses of a join list. */
  function Targets(joins: seq<JoinExpression>): set<Expr> {
    set c | c in joins :: c.target
  }

  /** No two clauses share a target. */
  ghost predicate DistinctTargets(joins: seq<JoinExpression>) {
    forall i, j :: 0 <= i < j < |joins| ==> joins[i].target != joins[j].target
  }

  /** No clause has a non-root path as its target. */
  ghost predicate RootTargets(joins: seq<JoinExpression>) {
    forall c | c in joins :: !IsNonRootPath(c.target)
  }

  /** Clauses of join type `t` and no condition, one per target, in order. */
  function Clauses(t: JoinType, es: seq<Expr>): (r: seq<JoinExpression>)
    ensures |r| == |es|
    ensures forall i :: 0 <= i < |es| ==> r[i] == JoinExpression(t, es[i], None)
  {
    if es == [] then [] else Clauses(t, es[..|es| - 1]) + [JoinExpression(t, es[|es| - 1], None)]
  }

  /** The commit step shared by addFrom and addJoin once the root check has
      passed: a new target gets a clause without condition, a known one is
      skipped. */
  function AddTarget(joins: seq<JoinExpression>, t: JoinType, e: Expr): (r: seq<JoinExpression>)
    ensures Targets(r) == Targets(joins) + {e}
    ensures DistinctTargets(joins) ==> DistinctTargets(r)
    ensures e in Targets(joins) ==> r == joins
    ensures e !in Targets(joins) ==> r == joins + [JoinExpression(t, e, None)]
  {
    if e in Targets(joins) then joins
    else
      var r := joins + [JoinExpression(t, e, None)];
      assert forall c | c in r :: c in joins || c == JoinExpression(t, e, None);
      r
  }

  /** The join list after every argument of `args` has been committed, left
      to right. */
  function AddAll(joins: seq<JoinExpression>, t: JoinType, args: seq<Expr>): (r: seq<JoinExpression>)
    ensures Targets(r) == Targets(joins) + Elems(args)
    ensures |joins| <= |r| && r[..|joins|] == joins
    decreases |args|
  {
    if args == [] then joins
    else
      var s := args[..|args| - 1];
      assert Elems(args) == Elems(s) + {args[|args| - 1]};
      AddTarget(AddAll(joins, t, s), t, args[|args| - 1])
  }

  /** addFrom keeps the join targets pairwise distinct. */
  lemma {:induction false} AddAllDistinct(joins: seq<JoinExpression>, t: JoinType, args: seq<Expr>)
    requires DistinctTargets(joins)
    ensures DistinctTargets(AddAll(joins, t, args))
    decreases |args|
  {
    if args != [] {
      AddAllDistinct(joins, t, args[..|args| - 1]);
    }
  }

  /** addFrom adds exactly one clause per distinct argument that was not yet
      a target. */
  lemma {:induction false} AddAllLength(joins: seq<JoinExpression>, t: JoinType, args: seq<Expr>)
    ensures |AddAll(joins, t, args)| == |joins| + |Elems(args) - Targets(joins)|
    decreases |args|
  {
    if args != [] {
      var s, x := args[..|args| - 1], args[|args| - 1];
      assert args == s + [x];
      AddAllLength(joins, t, s);
      if x in Targets(joins) + Elems(s) {
        LengthKnownStep(joins, t, s, x);
      } else {
        LengthNewStep(joins, t, s, x);
      }
    }
  }

  lemma LengthKnownStep(joins: seq<JoinExpression>, t: JoinType, s: seq<Expr>, x: Expr)
    requires |AddAll(joins, t, s)| == |joins| + |Elems(s) - Targets(joins)|
    requires x in Targets(joins) + Elems(s)
    ensures |AddAll(joins, t, s + [x])| == |joins| + |Elems(s + [x]) - Targets(joins)|
  {
    var prev := AddAll(joins, t, s);
    AddAllSnoc(joins, t, s, x);
    assert x in Targets(prev);
    assert AddAll(joins, t, s + [x]) == prev;
    ElemsSnoc(s, x);
    NewElementCount(Targets(joins), Elems(s), x);
  }

  lemma LengthNewStep(joins: seq<JoinExpression>, t: JoinType, s: seq<Expr>, x: Expr)
    requires |AddAll(joins, t, s)| == |joins| + |Elems(s) - Targets(joins)|
    requires x !in Targets(joins) + Elems(s)
    ensures |AddAll(joins, t, s + [x])| == |joins| + |Elems(s + [x]) - Targets(joins)|
  {
    var prev := AddAll(joins, t, s);
    AddAllSnoc(joins, t, s, x);
    assert x !in Targets(prev);
    assert |AddAll(joins, t, s + [x])| == |prev| + 1;
    ElemsSnoc(s, x);
    NewElementCount(Targets(joins), Elems(s), x);
  }

  lemma ElemsSnoc(s: seq<Expr>, x: Expr)
    ensures Elems(s + [x]) == Elems(s) + {x}
  {
  }

  /** Unfolds AddAll at its last argument. */
  lemma AddAllSnoc(joins: seq<JoinExpression>, t: JoinType, s: seq<Expr>, x: Expr)
    ensures AddAll(joins, t, s + [x]) == AddTarget(AddAll(joins, t, s), t, x)
  {
    assert (s + [x])[..|s|] == s;
  }

  /** Solver hint for AddAllLength: how many unknown elements one more
      argument contributes. */
  lemma NewElementCount(known: set<Expr>, es: set<Expr>, x: Expr)
    ensures x in known + es ==> (es + {x}) - known == es - known
    ensures x !in known + es ==> |(es + {x}) - known| == |es - known| + 1
  {
    if x !in known + es {
      assert (es + {x}) - known == (es - known) + {x};
    }
  }

  /** Length of the longest prefix of `args` free of non-root paths: addFrom
      commits exactly these arguments before it fails or finishes. */
  function RootedPrefix(args: seq<Expr>): (n: nat)
    ensures n <= |args|
    ensures forall i :: 0 <= i < n ==> !IsNonRootPath(args[i])
    ensures n < |args| ==> IsNonRootPath(args[n])
  {
    if args == [] || IsNonRootPath(args[0]) then 0 else 1 + RootedPrefix(args[1..])
  }

  /** The join list after addJoinCondition(c): the last clause, and only the
      last, gets condition `c`; an empty list stays empty. */
  function WithLastCondition(joins: seq<JoinExpression>, c: Expr): (r: seq<JoinExpression>)
    ensures |r| == |joins|
    ensures forall i :: 0 <= i < |joins| - 1 ==> r[i] == joins[i]
    ensures |joins| > 0 ==>
      var last := joins[|joins| - 1];
      r[|joins| - 1] == JoinExpression(last.joinType, last.target, Some(c))
    ensures Targets(r) == Targets(joins)
    ensures DistinctTargets(joins) ==> DistinctTargets(r)
    ensures RootTargets(joins) ==> RootTargets(r)
  {
    if joins == [] then joins
    else
      var n := |joins| - 1;
      var r := joins[n := joins[n].(condition := Some(c))];
      assert forall k :: 0 <= k < |r| ==> r[k].target == joins[k].target;
      assert forall d | d in r :: exists k :: 0 <= k < |r| && d == r[k];
      assert forall d | d in joins :: exists k :: 0 <= k < |joins| && d == joins[k];
      r
  }

  /** The reference reading of "commit left to right, skipping known
      targets": the targets that get a new clause, in order of first
      occurrence. */
  function NewTargets(known: set<Expr>, args: seq<Expr>): (r: seq<Expr>)
    ensures forall i :: 0 <= i < |r| ==> r[i] in args && r[i] !in known
    ensures forall i, j :: 0 <= i < j < |r| ==> r[i] != r[j]
    decreases |args|
  {
    if args == [] then []
    else if args[0] in known then NewTargets(known, args[1..])
    else [args[0]] + NewTargets(known + {args[0]}, args[1..])
  }

  lemma {:induction false} NewTargetsSnoc(known: set<Expr>, s: seq<Expr>, x: Expr)
    ensures NewTargets(known, s + [x]) ==
      NewTargets(known, s) + (if x in known || x in s then [] else [x])
    decreases |s|
  {
    if s == [] {
      assert [x][1..] == [];
    } else {
      assert (s + [x])[0] == s[0];
      assert (s + [x])[1..] == s[1..] + [x];
      if s[0] in known {
        NewTargetsSnoc(known, s[1..], x);
      } else {
        NewTargetsSnoc(known + {s[0]}, s[1..], x);
      }
    }
  }

  /** Solver hint for NewStep: associativity of sequence concatenation. */
  lemma SeqAssoc<T>(a: seq<T>, b: seq<T>, c: seq<T>)
    ensures a + (b + c) == (a + b) + c
  {
  }

  /** Solver hint for NewStep: Clauses distributes over concatenation. */
  lemma ClausesAppend(t: JoinType, a: seq<Expr>, b: seq<Expr>)
    ensures Clauses(t, a + b) == Clauses(t, a) + Clauses(t, b)
  {
  }

  /** AddAll adds, after the old clauses and in order of first occurrence,
      one clause of type `t` for each argument not already a target. */
  lemma {:induction false} AddAllFirstOccurrences(joins: seq<JoinExpression>, t: JoinType, args: seq<Expr>)
    ensures AddAll(joins, t, args) == joins + Clauses(t, NewTargets(Targets(joins), args))
    decreases |args|
  {
    if args == [] {
      assert Clauses(t, []) == [];
    } else {
      var s, x := args[..|args| - 1], args[|args| - 1];
      assert args == s + [x];
      AddAllFirstOccurrences(joins, t, s);
      if x in Targets(joins) || x in s {
        KnownStep(joins, t, s, x);
      } else {
        NewStep(joins, t, s, x);
      }
    }
  }

  lemma KnownStep(joins: seq<JoinExpression>, t: JoinType, s: seq<Expr>, x: Expr)
    requires AddAll(joins, t, s) == joins + Clauses(t, NewTargets(Targets(joins), s))
    requires x in Targets(joins) || x in s
    ensures AddAll(joins, t, s + [x]) == joins + Clauses(t, NewTargets(Targets(joins), s + [x]))
  {
    var prev := AddAll(joins, t, s);
    assert (s + [x])[..|s|] == s;
    assert AddAll(joins, t, s + [x]) == AddTarget(prev, t, x);
    assert x in Targets(prev);
    NewTargetsSnoc(Targets(joins), s, x);
    assert NewTargets(Targets(joins), s + [x]) == NewTargets(Targets(joins), s);
  }

  lemma NewStep(joins: seq<JoinExpression>, t: JoinType, s: seq<Expr>, x: Expr)
    requires AddAll(joins, t, s) == joins + Clauses(t, NewTargets(Targets(joins), s))
    requires x !in Targets(joins) && x !in s
    ensures AddAll(joins, t, s + [x]) == joins + Clauses(t, NewTargets(Targets(joins), s + [x]))
  {
    var prev := AddAll(joins, t, s);
    var ns := NewTargets(Targets(joins), s);
    assert (s + [x])[..|s|] == s;
    assert AddAll(joins, t, s + [x]) == AddTarget(prev, t, x);
    assert x !in Targets(prev);
    assert AddTarget(prev, t, x) == prev + [JoinExpression(t, x, None)];
    NewTargetsSnoc(Targets(joins), s, x);
    assert NewTargets(Targets(joins), s + [x]) == ns + [x];
    ClausesAppend(t, ns, [x]);
    assert Clauses(t, [x]) == [JoinExpression(t, x, None)];
    var cs, j := Clauses(t, ns), JoinExpression(t, x, None);
    assert Clauses(t, ns + [x]) == cs + [j];
    SeqAssoc(joins, cs, [j]);
  }

  /** Committing arguments that are all known targets changes nothing. */
  lemma {:induction false} AddAllKnown(joins: seq<JoinExpression>, t: JoinType, args: seq<Expr>)
    requires Elems(args) <= Targets(joins)
    ensures AddAll(joins, t, args) == joins
    decreases |args|
  {
    if args != [] {
      var s := args[..|args| - 1];
      assert Elems(s) <= Elems(args);
      AddAllKnown(joins, t, s);
    }
  }

  /** Repeating addFrom with the same arguments, under any join type, adds
      nothing. */
  lemma {:induction false} AddAllIdempotent(joins: seq<JoinExpression>, t: JoinType, t': JoinType, args: seq<Expr>)
    ensures AddAll(AddAll(joins, t, args), t', args) == AddAll(joins, t, args)
  {
    AddAllKnown(AddAll(joins, t, args), t', args);
  }

  /** Committing only root targets keeps every target a root. */
  lemma {:induction false} AddAllRoot(joins: seq<JoinExpression>, t: JoinType, args: seq<Expr>)
    requires RootTargets(joins)
    requires forall i :: 0 <= i < |args| ==> !IsNonRootPath(args[i])
    ensures RootTargets(AddAll(joins, t, args))
    decreases |args|
  {
    if args != [] {
      var s, x := args[..|args| - 1], args[|args| - 1];
      AddAllRoot(joins, t, s);
      var prev := AddAll(joins, t, s);
      var r := AddTarget(prev, t, x);
      assert forall c | c in r :: c in prev || c.target == x;
    }
  }

  /** What addFrom commits, the rooted prefix of its arguments, keeps the
      join targets distinct and all-root, and adds the new targets in order of
      first occurrence. */
  lemma CommittedPrefix(joins: seq<JoinExpression>, args: seq<Expr>, n: nat)
    requires DistinctTargets(joins) && RootTargets(joins)
    requires n == RootedPrefix(args)
    ensures var r := AddAll(joins, DefaultJoin, args[..n]);
      DistinctTargets(r) && RootTargets(r) &&
      r == joins + Clauses(DefaultJoin, NewTargets(Targets(joins), args[..n]))
  {
    AddAllDistinct(joins, DefaultJoin, args[..n]);
    AddAllRoot(joins, DefaultJoin, args[..n]);
    AddAllFirstOccurrences(joins, DefaultJoin, args[..n]);
  }

  /** One iteration of addFrom's loop: committing args[i] after args[..i]. */
  lemma CommitStep(joins: seq<JoinExpression>, args: seq<Expr>, i: nat, before: seq<JoinExpression>, after: seq<JoinExpression>)
    requires i < |args|
    requires before == AddAll(joins, DefaultJoin, args[..i])
    requires after == if args[i] in Targets(before) then before else before + [JoinExpression(DefaultJoin, args[i], None)]
    ensures after == AddAll(joins, DefaultJoin, args[..i + 1])
    ensures Targets(after) == Targets(before) + {args[i]}
  {
    assert args[..i + 1] == args[..i] + [args[i]];
    AddAllSnoc(joins, DefaultJoin, args[..i], args[i]);
  }

  /** In a join list whose targets are all roots, no known target is a
      non-root path, so checking for a duplicate first (addJoin) or for a
      root first (addFrom) reaches the same outcome. */
  lemma KnownTargetsAreRoots(joins: seq<JoinExpression>, e: Expr)
    requires RootTargets(joins)
    requires e in Targets(joins)
    ensures !IsNonRootPath(e)
  {
    var c :| c in joins && c.target == e;
  }
}
