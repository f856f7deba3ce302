/** Pagination state: an optional limit and an optional offset, and the merge
    rules that setLimit and setOffset apply to a possibly absent state. */
module Modifiers {
  import opened Expressions

  datatype QueryModifiers = QueryModifiers(limit: Option<int>, offset: Option<int>)

  /** `new QueryModifiers()`: present, with both bounds absent. */
  function Unrestricted(): (r: QueryModifiers)
    ensures r.limit == None && r.offset == None
  {
    QueryModifiers(None, None)
  }

  /** `QueryModifiers.limit(l)`: a limit and no offset. */
  function LimitOnly(l: Option<int>): (r: QueryModifiers)
    ensures r.limit == l && r.offset == None
  {
    QueryModifiers(l, None)
  }

  /** `QueryModifiers.offset(o)`: an offset and no limit. */
  function OffsetOnly(o: Option<int>): (r: QueryModifiers)
    ensures r.limit == None && r.offset == o
  {
    QueryModifiers(None, o)
  }

  /** The value setLimit stores: a fresh limit-only state when there is no
      state or no offset, otherwise the old offset under the new limit. */
  function WithLimit(m: Option<QueryModifiers>, l: Option<int>): (r: QueryModifiers)
    ensures r.limit == l
    ensures r.offset == (if m.Some? then m.value.offset else None)
  {
    if m.None? || m.value.offset.None? then LimitOnly(l) else QueryModifiers(l, m.value.offset)
  }

  /** The value setOffset stores, symmetric to WithLimit. */
  function WithOffset(m: Option<QueryModifiers>, o: Option<int>): (r: QueryModifiers)
    ensures r.offset == o
    ensures r.limit == (if m.Some? then m.value.limit else None)
  {
    if m.None? || m.value.limit.None? then OffsetOnly(o) else QueryModifiers(m.value.limit, o)
  }

  /** Setting the limit and then the offset gives both, whatever came before;
      so does the other order. */
  lemma LimitAndOffsetCommute(m: Option<QueryModifiers>, l: Option<int>, o: Option<int>)
    ensures WithOffset(Some(WithLimit(m, l)), o) == QueryModifiers(l, o)
    ensures WithLimit(Some(WithOffset(m, o)), l) == QueryModifiers(l, o)
  {
  }

  /** A second setLimit overrides the first and still keeps the old offset. */
  lemma LastLimitWins(m: Option<QueryModifiers>, l1: Option<int>, l2: Option<int>)
    ensures WithLimit(Some(WithLimit(m, l1)), l2) == WithLimit(m, l2)
  {
  }

  /** After the state has been cleared, setLimit does not bring back an offset. */
  lemma LimitAfterClear(l: Option<int>)
    ensures WithLimit(None, l) == QueryModifiers(l, None)
  {
  }
}
