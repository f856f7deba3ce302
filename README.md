# Query metadata aggregate of querydsl, modelled in Dafny

This project models `DefaultQueryMetadata`, the mutable aggregate that
querydsl's query builders fill in call by call: the join list with its set
of already-joined targets, the WHERE and HAVING conjunction builders, the
group-by, order-by and projection lists, the distinct and unique flags and
the nullable pagination value (`QueryModifiers`).

- `expressions.dfy` (module `Expressions`): the opaque collaborators. An
  expression is either a path with an optional parent or some other
  expression; equality is structural. A join clause is the value
  `JoinExpression(joinType, target, condition)`. The exception
  "Only root paths are allowed for joins" is the status `InvalidJoinSource(path)`.
- `joins.dfy` (module `Joins`): the join list as a value. `AddAll` is what
  `addFrom` commits, `RootedPrefix` tells how far `addFrom` gets before it
  fails, `WithLastCondition` is what `addJoinCondition` leaves. `NewTargets`
  is an independent, left-to-right reading of "skip known targets", and
  `AddAllFirstOccurrences` proves that both agree.
- `modifiers.dfy` (module `Modifiers`): `QueryModifiers` and the merge rules
  of `setLimit`/`setOffset`.
- `metadata.dfy` (module `Metadata`): the class `QueryMetadata`, one field
  per Java field, one method per mutator. Each method's `modifies` clause names
  only the fields it may change, so "nothing else changes" follows from its frame.
  `Valid()` states that no target is joined twice, that the known-target
  set equals the set of join targets, and that no join target is a non-root
  path. Every method keeps `Valid()`.
- `scenarios.dfy` (module `Scenarios`): call sequences on the class (duplicate
  joins, absent filters, join-condition targeting, pagination merge,
  root-path rejection, an end-to-end build) whose results follow from the
  method contracts alone.

`addFrom` and `addJoin` apply their two checks in different orders.
`addFrom` (DefaultQueryMetadata.java:55-58) root-checks an argument before it
looks for a duplicate. `addJoin` (DefaultQueryMetadata.java:87-89) looks for a
duplicate first. So `AddJoin` of an already known target succeeds silently even
when that target is a non-root path, where `AddFrom` of the same target fails.
The model keeps both orders as written. In states reached through the class's
own methods the difference cannot be observed. `RootTargets` is part of
`Valid()`, which every method preserves, and `Joins.KnownTargetsAreRoots`
proves that under `RootTargets` a known target is never a non-root path.

## Model

| member | source | states |
|---|---|---|
| `Metadata.QueryMetadata.constructor` | querydsl-core/src/main/java/com/mysema/query/DefaultQueryMetadata.java:30-49 | a fresh aggregate has no joins, no known targets, empty WHERE/HAVING builders and lists, both flags false, and modifiers present with limit and offset both absent |
| `Metadata.QueryMetadata.AddFrom` | querydsl-core/src/main/java/com/mysema/query/DefaultQueryMetadata.java:53-68 | the arguments before the first non-root path are committed in order as default joins, skipping known targets: the new list is the old one followed by one default clause per new target, in order of first occurrence; the call fails with that path, adding nothing for it and for every later argument; `Valid()` is kept |
| `Metadata.QueryMetadata.AddJoin` | querydsl-core/src/main/java/com/mysema/query/DefaultQueryMetadata.java:86-94 | a known target leaves the joins unchanged and succeeds, whatever the join type and even for a non-root path; a new non-root path fails with the joins unchanged; a new root target is appended with the given type and no condition |
| `Metadata.QueryMetadata.AddJoinCondition` | querydsl-core/src/main/java/com/mysema/query/DefaultQueryMetadata.java:97-101 | the join list becomes `WithLastCondition` of the old one and the join invariant is kept |
| `Metadata.QueryMetadata.AddWhere` | querydsl-core/src/main/java/com/mysema/query/DefaultQueryMetadata.java:114-118 | the WHERE conjuncts become the old ones followed by the arguments in order; HAVING is outside the frame; after a non-empty call getWhere is present |
| `Metadata.QueryMetadata.AddHaving` | querydsl-core/src/main/java/com/mysema/query/DefaultQueryMetadata.java:77-81 | the HAVING conjuncts become the old ones followed by the arguments; WHERE is outside the frame; after a non-empty call getHaving is present |
| `Metadata.QueryMetadata.GetWhere` | querydsl-core/src/main/java/com/mysema/query/DefaultQueryMetadata.java:152-154 | absent exactly when no WHERE conjunct has been appended, otherwise the appended conjuncts |
| `Metadata.QueryMetadata.GetHaving` | querydsl-core/src/main/java/com/mysema/query/DefaultQueryMetadata.java:126-128 | absent exactly when no HAVING conjunct has been appended, otherwise the appended conjuncts |
| `Metadata.QueryMetadata.AddGroupBy` | querydsl-core/src/main/java/com/mysema/query/DefaultQueryMetadata.java:72-74 | the group-by list becomes the old list followed by the arguments, duplicates kept; no other field changes |
| `Metadata.QueryMetadata.AddOrderBy` | querydsl-core/src/main/java/com/mysema/query/DefaultQueryMetadata.java:104-106 | the order-by list becomes the old list followed by the arguments; no other field changes |
| `Metadata.QueryMetadata.AddProjection` | querydsl-core/src/main/java/com/mysema/query/DefaultQueryMetadata.java:109-111 | the projection becomes the old list followed by the arguments; no other field changes |
| `Metadata.QueryMetadata.SetDistinct` | querydsl-core/src/main/java/com/mysema/query/DefaultQueryMetadata.java:167-169 | sets the distinct flag and nothing else |
| `Metadata.QueryMetadata.SetUnique` | querydsl-core/src/main/java/com/mysema/query/DefaultQueryMetadata.java:195-197 | sets the unique flag and nothing else |
| `Metadata.QueryMetadata.SetLimit` | querydsl-core/src/main/java/com/mysema/query/DefaultQueryMetadata.java:172-178 | modifiers become present with the given limit and the previous offset, or no offset when modifiers were null |
| `Metadata.QueryMetadata.SetOffset` | querydsl-core/src/main/java/com/mysema/query/DefaultQueryMetadata.java:186-192 | modifiers become present with the given offset and the previous limit, or no limit when modifiers were null |
| `Metadata.QueryMetadata.SetModifiers` | querydsl-core/src/main/java/com/mysema/query/DefaultQueryMetadata.java:181-183 | modifiers are replaced unconditionally, null included |
| `Joins.AddTarget` | querydsl-core/src/main/java/com/mysema/query/DefaultQueryMetadata.java:58-61 | committing one target adds it to the target set and keeps targets distinct; a known target changes nothing, a new one gets one clause without condition at the end |
| `Joins.AddAll` | querydsl-core/src/main/java/com/mysema/query/DefaultQueryMetadata.java:54-62 | after committing a sequence of arguments the targets are the old targets plus the arguments, and the old clauses are an unchanged prefix |
| `Joins.AddAllDistinct` | querydsl-core/src/main/java/com/mysema/query/DefaultQueryMetadata.java:58-61 | committing arguments never duplicates a join target |
| `Joins.AddAllLength` | querydsl-core/src/main/java/com/mysema/query/DefaultQueryMetadata.java:58-61 | exactly one clause is added per distinct argument that was not yet a target |
| `Joins.NewTargets` | querydsl-core/src/main/java/com/mysema/query/DefaultQueryMetadata.java:54-62 | the targets that get a new clause are arguments, not previously known, and pairwise distinct |
| `Joins.AddAllFirstOccurrences` | querydsl-core/src/main/java/com/mysema/query/DefaultQueryMetadata.java:54-62 | the committed list is the old list followed by one clause of the given type per new target, in order of first occurrence among the arguments |
| `Joins.AddAllKnown` | querydsl-core/src/main/java/com/mysema/query/DefaultQueryMetadata.java:58 | committing only known targets leaves the join list unchanged |
| `Joins.AddAllIdempotent` | querydsl-core/src/main/java/com/mysema/query/DefaultQueryMetadata.java:58-61 | repeating the same arguments, under any join type, adds nothing |
| `Joins.AddAllRoot` | querydsl-core/src/main/java/com/mysema/query/DefaultQueryMetadata.java:55-57 | committing root arguments keeps every join target a root |
| `Joins.RootedPrefix` | querydsl-core/src/main/java/com/mysema/query/DefaultQueryMetadata.java:54-57 | every argument before the returned index passes the root check, and the argument at that index, if any, fails it |
| `Joins.CommittedPrefix` | querydsl-core/src/main/java/com/mysema/query/DefaultQueryMetadata.java:53-62 | what addFrom commits keeps an all-root join list all-root, whether the call fails or not, and equals the old list followed by the new targets in order of first occurrence |
| `Joins.KnownTargetsAreRoots` | querydsl-core/src/main/java/com/mysema/query/DefaultQueryMetadata.java:86-90 | when all join targets are roots, a known target is never a non-root path, so the duplicate-first order of addJoin and the root-first order of addFrom agree |
| `Expressions.IsNonRootPath` | querydsl-core/src/main/java/com/mysema/query/DefaultQueryMetadata.java:55-66 | true only for a path, and for a path exactly when it has a parent segment |
| `Expressions.EnsureRoot` | querydsl-core/src/main/java/com/mysema/query/DefaultQueryMetadata.java:65-68 | rejects exactly the non-root paths, naming the rejected path; every other expression passes |
| `Modifiers.Unrestricted` | querydsl-core/src/main/java/com/mysema/query/DefaultQueryMetadata.java:40-41 | the initial modifiers have neither limit nor offset |
| `Modifiers.LimitOnly` | querydsl-core/src/main/java/com/mysema/query/DefaultQueryMetadata.java:173-174 | `QueryModifiers.limit(l)` has limit `l` and no offset |
| `Modifiers.OffsetOnly` | querydsl-core/src/main/java/com/mysema/query/DefaultQueryMetadata.java:187-188 | `QueryModifiers.offset(o)` has offset `o` and no limit |
| `Joins.WithLastCondition` | querydsl-core/src/main/java/com/mysema/query/DefaultQueryMetadata.java:97-101 | an empty list stays empty; otherwise the length and every clause but the last are unchanged, and the last keeps its type and target and gets the new condition, overwriting any earlier one; targets and their distinctness are kept |
| `Modifiers.WithLimit` | querydsl-core/src/main/java/com/mysema/query/DefaultQueryMetadata.java:172-178 | the merged state has the new limit and the previous offset, or none when there was no state |
| `Modifiers.WithOffset` | querydsl-core/src/main/java/com/mysema/query/DefaultQueryMetadata.java:186-192 | the merged state has the new offset and the previous limit, or none when there was no state |
| `Modifiers.LimitAndOffsetCommute` | querydsl-core/src/main/java/com/mysema/query/DefaultQueryMetadata.java:172-192 | setting limit then offset, or offset then limit, gives both, whatever the state before |
| `Modifiers.LastLimitWins` | querydsl-core/src/main/java/com/mysema/query/DefaultQueryMetadata.java:172-178 | a second limit overrides the first and still keeps the earlier offset |
| `Modifiers.LimitAfterClear` | querydsl-core/src/main/java/com/mysema/query/DefaultQueryMetadata.java:172-183 | a limit set after modifiers were cleared comes without an offset |
| `Scenarios.Deduplication` | querydsl-core/src/main/java/com/mysema/query/DefaultQueryMetadata.java:53-94 | adding one source twice and then joining it under any type leaves one default clause; for a non-root path all three calls fail and nothing is added |
| `Scenarios.FilterAbsence` | querydsl-core/src/main/java/com/mysema/query/DefaultQueryMetadata.java:77-154 | WHERE is absent before any predicate, then holds p1 and p2 in order, unaffected by a HAVING predicate appended between them |
| `Scenarios.RepeatedArgument` | querydsl-core/src/main/java/com/mysema/query/DefaultQueryMetadata.java:53-62 | addFrom(a, a) with a root `a` succeeds and leaves one default clause for `a` |
| `Scenarios.ConditionTargeting` | querydsl-core/src/main/java/com/mysema/query/DefaultQueryMetadata.java:97-101 | a condition with no join is dropped; after two joins it lands on the second clause only |
| `Scenarios.PaginationMerge` | querydsl-core/src/main/java/com/mysema/query/DefaultQueryMetadata.java:172-192 | from null modifiers: limit 10 gives (10, none), offset 20 then gives (10, 20), clearing gives null, and limit 5 then gives (5, none) |
| `Scenarios.RootPathRejection` | querydsl-core/src/main/java/com/mysema/query/DefaultQueryMetadata.java:53-68 | addFrom(parent, child) with child a path under parent commits parent and fails on child |
| `Scenarios.EndToEnd` | querydsl-core/src/main/java/com/mysema/query/DefaultQueryMetadata.java:53-192 | from, inner join, join condition, filter, limit and offset give the expected joins, filter and page |

## Left out

- The getters `getJoins`, `getGroupBy`, `getOrderBy`, `getProjection`, `getModifiers`, `isDistinct` and `isUnique` (DefaultQueryMetadata.java:121-164) are not separate members. A client reads the field itself, and what it gets is a snapshot, not a live view. The Java list getters return `Collections.unmodifiableList` views, which go on showing later additions; the model does not capture that.
- Metadata.QueryMetadata.GetWhere and Metadata.QueryMetadata.GetHaving return a snapshot of the conjuncts. The Java getters (DefaultQueryMetadata.java:127, 153) hand out the mutable `BooleanBuilder` itself. A caller holding it sees later `addWhere`/`addHaving` calls and can extend the filter through it. The model does not capture that aliasing.
- The AND tree that `BooleanBuilder.and` builds is not modelled. BooleanBuilder is not part of this model, so a builder is the sequence of its conjuncts, and `hasValue` means "non-empty". That conjunction is logically commutative is not modelled either.
- `QueryModifiers` is not part of this model. The model assumes that `new QueryModifiers()` has both bounds absent, and that `QueryModifiers.limit(x)` and `QueryModifiers.offset(x)` leave the other bound absent.
- Bounds are unbounded integers wrapped in `Option`, standing for a nullable `Long`. As in the source, no range or sign is checked. 64-bit overflow cannot arise because nothing is computed on the bounds.
- `JoinExpression` is a value here, not a shared object. A caller who kept a reference to a clause object would, in Java, later see that clause's condition change through `setCondition`. The model does not capture that aliasing.
- Java `equals`/`hashCode` of `Expr`, used by the `HashSet` of joined targets, is modelled as structural equality of the expression datatype.
- The Java exception is an error status that the method returns. Null argument arrays and null elements are not modelled.
- Java generics and the `Path`/`EBoolean`/`OrderSpecifier` type hierarchy are flattened into the `Expr` and `OrderSpecifier` datatypes.
