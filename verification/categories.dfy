/**
 * The category listings of module 5 (app/module5/views.py): two fixed
 * filters on `is_active` and the tri-state `active` parameter, given either
 * as a query parameter or as a path segment. A query set is modelled as the
 * sequence of rows it yields; `filter` and `exclude` keep row order.
 */
module CategoryViews {
  import opened Wrappers
  import opened Ascii

  /** A row of the category table, with the columns the serializer exposes. */
  datatype Category = Category(id: int, name: string, slug: string, isActive: bool, level: int)

  /** `queryset.filter(is_active=value)`. */
  function FilterIsActive(cs: seq<Category>, value: bool): (r: seq<Category>)
    ensures |r| <= |cs|
    ensures forall c :: c in r <==> c in cs && c.isActive == value
  {
    if |cs| == 0 then []
    else
      var rest := FilterIsActive(cs[1..], value);
      assert forall c :: c in cs <==> c == cs[0] || c in cs[1..];
      if cs[0].isActive == value then [cs[0]] + rest else rest
  }

  /** `queryset.exclude(is_active=value)`. */
  function ExcludeIsActive(cs: seq<Category>, value: bool): (r: seq<Category>)
    ensures |r| <= |cs|
    ensures forall c :: c in r <==> c in cs && c.isActive != value
  {
    if |cs| == 0 then []
    else
      var rest := ExcludeIsActive(cs[1..], value);
      assert forall c :: c in cs <==> c == cs[0] || c in cs[1..];
      if cs[0].isActive != value then [cs[0]] + rest else rest
  }

  /** Filtering keeps every matching row as many times as it occurs and drops every other row. */
  lemma {:induction false} FilterIsActiveCounts(cs: seq<Category>, value: bool, c: Category)
    ensures multiset(FilterIsActive(cs, value))[c] == if c.isActive == value then multiset(cs)[c] else 0
    decreases |cs|
  {
    if |cs| > 0 {
      FilterIsActiveCounts(cs[1..], value, c);
      assert cs == [cs[0]] + cs[1..];
    }
  }

  /**
   * The active rows and the inactive rows split the collection: disjoint,
   * each a part of it, and together all of it.
   */
  lemma ActiveSplit(cs: seq<Category>)
    ensures multiset(FilterIsActive(cs, true)) + multiset(FilterIsActive(cs, false)) == multiset(cs)
    ensures multiset(FilterIsActive(cs, true)) !! multiset(FilterIsActive(cs, false))
    ensures |FilterIsActive(cs, true)| + |FilterIsActive(cs, false)| == |cs|
  {
    forall c
      ensures multiset(FilterIsActive(cs, true))[c] + multiset(FilterIsActive(cs, false))[c] == multiset(cs)[c]
    {
      FilterIsActiveCounts(cs, true, c);
      FilterIsActiveCounts(cs, false, c);
    }
    assert multiset(FilterIsActive(cs, true)) + multiset(FilterIsActive(cs, false)) == multiset(cs);
    assert |multiset(FilterIsActive(cs, true)) + multiset(FilterIsActive(cs, false))| == |multiset(cs)|;
  }

  /** Excluding the active rows gives the same rows, in the same order, as keeping the inactive ones. */
  lemma {:induction false} ExcludeActiveIsFilterInactive(cs: seq<Category>)
    ensures ExcludeIsActive(cs, true) == FilterIsActive(cs, false)
    decreases |cs|
  {
    if |cs| > 0 {
      ExcludeActiveIsFilterInactive(cs[1..]);
    }
  }

  /** `CategoryFilterViewSet.list`: the inactive categories. */
  function CategoryFilterList(cs: seq<Category>): (r: seq<Category>)
    ensures forall c :: c in r <==> c in cs && !c.isActive
  {
    FilterIsActive(cs, false)
  }

  /** `InactiveCategoryExcludeViewSet.list`: every category except the active ones. */
  function InactiveCategoryExcludeList(cs: seq<Category>): (r: seq<Category>)
    ensures forall c :: c in r <==> c in cs && !c.isActive
  {
    ExcludeIsActive(cs, true)
  }

  /** The two fixed listings return the same rows in the same order. */
  lemma FixedInactiveListingsAgree(cs: seq<Category>)
    ensures InactiveCategoryExcludeList(cs) == CategoryFilterList(cs)
  {
    ExcludeActiveIsFilterInactive(cs);
  }

  /**
   * `DynamicCategoryQueryFilterViewSet.list` for the query parameter
   * `active`: absent, or neither "true" nor "false" in any case, gives all
   * categories; "true" gives the active ones and "false" the inactive ones.
   */
  function QueryFilterList(active: Option<string>, cs: seq<Category>): (r: seq<Category>)
    ensures active.None? ==> r == cs
    ensures active.Some? && Lower(active.value) == "true" ==>
              forall c :: c in r <==> c in cs && c.isActive
    ensures active.Some? && Lower(active.value) == "false" ==>
              forall c :: c in r <==> c in cs && !c.isActive
    ensures active.Some? && Lower(active.value) != "true" && Lower(active.value) != "false" ==> r == cs
  {
    if active.Some? then
      if Lower(active.value) == "true" then FilterIsActive(cs, true)
      else if Lower(active.value) == "false" then FilterIsActive(cs, false)
      else cs
    else cs
  }

  /**
   * `DynamicCategoryURLFilterViewSet.list` for the path segment
   * `active_status`, which defaults to None.
   */
  function UrlFilterList(activeStatus: Option<string>, cs: seq<Category>): (r: seq<Category>)
    ensures activeStatus.None? ==> r == cs
    ensures activeStatus.Some? && Lower(activeStatus.value) == "true" ==>
              forall c :: c in r <==> c in cs && c.isActive
    ensures activeStatus.Some? && Lower(activeStatus.value) == "false" ==>
              forall c :: c in r <==> c in cs && !c.isActive
    ensures activeStatus.Some? && Lower(activeStatus.value) != "true" && Lower(activeStatus.value) != "false" ==> r == cs
  {
    match activeStatus
    case None => cs
    case Some(status) =>
      var folded := Lower(status);
      if folded == "true" then FilterIsActive(cs, true)
      else if folded == "false" then FilterIsActive(cs, false)
      else cs
  }

  /** The path variant applies the same rule as the query variant, on every input. */
  lemma PathAndQueryVariantsAgree(param: Option<string>, cs: seq<Category>)
    ensures UrlFilterList(param, cs) == QueryFilterList(param, cs)
  {
  }

  /**
   * The listing differs from the full collection only when the parameter is
   * present and spells "true" or "false" in some mix of cases.
   */
  lemma NarrowedOnlyByTrueOrFalse(active: Option<string>, cs: seq<Category>)
    requires QueryFilterList(active, cs) != cs
    ensures active.Some?
    ensures |active.value| == 4 || |active.value| == 5
    ensures |active.value| == 4 ==> forall i :: 0 <= i < 4 ==> active.value[i] == "true"[i] || active.value[i] == UpperChar("true"[i])
    ensures |active.value| == 5 ==> forall i :: 0 <= i < 5 ==> active.value[i] == "false"[i] || active.value[i] == UpperChar("false"[i])
  {
    LowerEqualsWordIff(active.value, "true");
    LowerEqualsWordIff(active.value, "false");
  }

  /** Whatever the parameter, the listing is a sub-collection of the categories. */
  lemma QueryFilterIsSubCollection(active: Option<string>, cs: seq<Category>)
    ensures multiset(QueryFilterList(active, cs)) <= multiset(cs)
  {
    ActiveSplit(cs);
  }
}
