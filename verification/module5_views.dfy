/**
 * The members of app/module5/views.py as `getmembers(views)` lists them,
 * sorted by name, and the routes the registration loop derives from them.
 */
module Module5Views {
  import opened Ascii
  import opened Replace
  import opened Routing

  /** `views.__name__`. */
  const ViewsModule: string := "module5.views"

  // Members defined in the views module have `definedIn == ViewsModule`.
  const MCategory: Member := Member("Category", true, false, "inventory.models")
  const MCategoryFilter: Member := Member("CategoryFilterViewSet", true, true, ViewsModule)
  const MCategoryListOnly: Member := Member("CategoryListOnlyViewSet", true, true, ViewsModule)
  const MCategoryListValues: Member := Member("CategoryListValuesViewSet", true, true, ViewsModule)
  const MCategoryList: Member := Member("CategoryListViewSet", true, true, ViewsModule)
  const MCategorySerializer: Member := Member("CategorySerializer", true, false, "module5.serializers")
  const MDynamicCategoryQueryFilter: Member := Member("DynamicCategoryQueryFilterViewSet", true, true, ViewsModule)
  const MDynamicCategoryURLFilter: Member := Member("DynamicCategoryURLFilterViewSet", true, true, ViewsModule)
  const MInactiveCategoryExclude: Member := Member("InactiveCategoryExcludeViewSet", true, true, ViewsModule)
  const MOpenApiParameter: Member := Member("OpenApiParameter", true, false, "drf_spectacular.utils")
  const MResponse: Member := Member("Response", true, false, "rest_framework.response")
  const MViewSetBase: Member := Member("ViewSet", true, true, "rest_framework.viewsets")
  const MExtendSchema: Member := Member("extend_schema", false, false, "drf_spectacular.utils")

  /** The names bound by the views module's imports and class statements, in the name order `getmembers` uses. */
  function ViewsMembers(): (ms: seq<Member>)
    ensures |ms| == 13
  {
    [ MCategory,
      MCategoryFilter,
      MCategoryListOnly,
      MCategoryListValues,
      MCategoryList,
      MCategorySerializer,
      MDynamicCategoryQueryFilter,
      MDynamicCategoryURLFilter,
      MInactiveCategoryExclude,
      MOpenApiParameter,
      MResponse,
      MViewSetBase,
      MExtendSchema ]
  }

  /** The view sets that qualify for a route, in name order. */
  function RegisteredViewSets(): (vs: seq<Member>)
    ensures |vs| == 6
  {
    [ MCategoryFilter,
      MCategoryListOnly,
      MCategoryListValues,
      MCategoryList,
      MDynamicCategoryQueryFilter,
      MInactiveCategoryExclude ]
  }

  /** Which members pass the three tests of the registration loop. */
  lemma MemberVerdicts()
    ensures !Qualifies(MCategory, ViewsModule)
    ensures Qualifies(MCategoryFilter, ViewsModule)
    ensures Qualifies(MCategoryListOnly, ViewsModule)
    ensures Qualifies(MCategoryListValues, ViewsModule)
    ensures Qualifies(MCategoryList, ViewsModule)
    ensures !Qualifies(MCategorySerializer, ViewsModule)
    ensures Qualifies(MDynamicCategoryQueryFilter, ViewsModule)
    ensures !Qualifies(MDynamicCategoryURLFilter, ViewsModule)
    ensures Qualifies(MInactiveCategoryExclude, ViewsModule)
    ensures !Qualifies(MOpenApiParameter, ViewsModule)
    ensures !Qualifies(MResponse, ViewsModule)
    ensures !Qualifies(MViewSetBase, ViewsModule)
    ensures !Qualifies(MExtendSchema, ViewsModule)
  {
  }

  /** From `Category` to `CategoryListOnlyViewSet` in name order: the imported model is skipped. */
  lemma QualifyingFromCategoryToListOnly()
    ensures QualifyingMembers([MCategory, MCategoryFilter, MCategoryListOnly], ViewsModule) == [MCategoryFilter, MCategoryListOnly]
  {
    MemberVerdicts();
    var t3: seq<Member> := [];
    var t2 := [MCategoryListOnly] + t3;
    QualifyingCons(MCategoryListOnly, t3, ViewsModule);
    var t1 := [MCategoryFilter] + t2;
    QualifyingCons(MCategoryFilter, t2, ViewsModule);
    var t0 := [MCategory] + t1;
    QualifyingCons(MCategory, t1, ViewsModule);
    assert t0 == [MCategory, MCategoryFilter, MCategoryListOnly];
  }

  /** From `CategoryListValuesViewSet` to `CategorySerializer`: the imported serializer is skipped. */
  lemma QualifyingFromListValuesToSerializer()
    ensures QualifyingMembers([MCategoryListValues, MCategoryList, MCategorySerializer], ViewsModule) == [MCategoryListValues, MCategoryList]
  {
    MemberVerdicts();
    var t6: seq<Member> := [];
    var t5 := [MCategorySerializer] + t6;
    QualifyingCons(MCategorySerializer, t6, ViewsModule);
    var t4 := [MCategoryList] + t5;
    QualifyingCons(MCategoryList, t5, ViewsModule);
    var t3 := [MCategoryListValues] + t4;
    QualifyingCons(MCategoryListValues, t4, ViewsModule);
    assert t3 == [MCategoryListValues, MCategoryList, MCategorySerializer];
  }

  /** From `DynamicCategoryQueryFilterViewSet` to `InactiveCategoryExcludeViewSet`: the excluded class is skipped. */
  lemma QualifyingFromQueryFilterToExclude()
    ensures QualifyingMembers([MDynamicCategoryQueryFilter, MDynamicCategoryURLFilter, MInactiveCategoryExclude], ViewsModule) == [MDynamicCategoryQueryFilter, MInactiveCategoryExclude]
  {
    MemberVerdicts();
    var t9: seq<Member> := [];
    var t8 := [MInactiveCategoryExclude] + t9;
    QualifyingCons(MInactiveCategoryExclude, t9, ViewsModule);
    var t7 := [MDynamicCategoryURLFilter] + t8;
    QualifyingCons(MDynamicCategoryURLFilter, t8, ViewsModule);
    var t6 := [MDynamicCategoryQueryFilter] + t7;
    QualifyingCons(MDynamicCategoryQueryFilter, t7, ViewsModule);
    assert t6 == [MDynamicCategoryQueryFilter, MDynamicCategoryURLFilter, MInactiveCategoryExclude];
  }

  /** From `OpenApiParameter` to `extend_schema`: none of these imported members qualifies. */
  lemma QualifyingFromOpenApiToExtendSchema()
    ensures QualifyingMembers([MOpenApiParameter, MResponse, MViewSetBase, MExtendSchema], ViewsModule) == []
  {
    MemberVerdicts();
    var t13: seq<Member> := [];
    var t12 := [MExtendSchema] + t13;
    QualifyingCons(MExtendSchema, t13, ViewsModule);
    var t11 := [MViewSetBase] + t12;
    QualifyingCons(MViewSetBase, t12, ViewsModule);
    var t10 := [MResponse] + t11;
    QualifyingCons(MResponse, t11, ViewsModule);
    var t9 := [MOpenApiParameter] + t10;
    QualifyingCons(MOpenApiParameter, t10, ViewsModule);
    assert t9 == [MOpenApiParameter, MResponse, MViewSetBase, MExtendSchema];
  }

  /**
   * Over the views module exactly the six view sets defined there, other
   * than `DynamicCategoryURLFilterViewSet`, qualify, in name order: the
   * imported classes (including `ViewSet` itself) and the non-class member
   * do not.
   */
  lemma ViewsModuleQualifying()
    ensures QualifyingMembers(ViewsMembers(), ViewsModule) == RegisteredViewSets()
  {
    var c0 := [MCategory, MCategoryFilter, MCategoryListOnly];
    QualifyingFromCategoryToListOnly();
    var c3 := [MCategoryListValues, MCategoryList, MCategorySerializer];
    QualifyingFromListValuesToSerializer();
    var c6 := [MDynamicCategoryQueryFilter, MDynamicCategoryURLFilter, MInactiveCategoryExclude];
    QualifyingFromQueryFilterToExclude();
    var c9 := [MOpenApiParameter, MResponse, MViewSetBase, MExtendSchema];
    QualifyingFromOpenApiToExtendSchema();
    var r0, r3, r6, r9 := QualifyingMembers(c0, ViewsModule), QualifyingMembers(c3, ViewsModule),
                          QualifyingMembers(c6, ViewsModule), QualifyingMembers(c9, ViewsModule);
    assert QualifyingMembers(c6 + c9, ViewsModule) == r6 + r9 by {
      QualifyingAppend(c6, c9, ViewsModule);
    }
    assert QualifyingMembers(c3 + (c6 + c9), ViewsModule) == r3 + (r6 + r9) by {
      QualifyingAppend(c3, c6 + c9, ViewsModule);
    }
    assert QualifyingMembers(c0 + (c3 + (c6 + c9)), ViewsModule) == r0 + (r3 + (r6 + r9)) by {
      QualifyingAppend(c0, c3 + (c6 + c9), ViewsModule);
    }
    assert ViewsMembers() == c0 + (c3 + (c6 + c9));
    assert RegisteredViewSets() == r0 + (r3 + (r6 + r9));
  }

  /** The members that get a route are exactly the six view sets, in name order. */
  lemma ViewsModuleRegistrations()
    ensures ViewsOf(AutoRegister(ViewsMembers(), ViewsModule)) == RegisteredViewSets()
  {
    ViewsModuleQualifying();
    RegisteredClassesAreQualifyingMembers(ViewsMembers(), ViewsModule);
  }

  /** `a` sorts before `b` because they first differ at position `k`, where `a` is smaller. */
  lemma NameLessAt(a: string, b: string, k: int)
    requires 0 <= k < |a| && k < |b| && a[..k] == b[..k] && a[k] < b[k]
    ensures NameLess(a, b)
  {
  }

  /** From `Category` to `CategoryListValuesViewSet`, each name sorts before the next. */
  lemma CategoryNamesInOrder()
    ensures NameLess(MCategory.name, MCategoryFilter.name)
    ensures NameLess(MCategoryFilter.name, MCategoryListOnly.name)
    ensures NameLess(MCategoryListOnly.name, MCategoryListValues.name)
  {
    assert MCategory.name == MCategoryFilter.name[..|MCategory.name|];
    NameLessAt(MCategoryFilter.name, MCategoryListOnly.name, 8);
    NameLessAt(MCategoryListOnly.name, MCategoryListValues.name, 12);
  }

  /** From `CategoryListValuesViewSet` to `DynamicCategoryQueryFilterViewSet`, each name sorts before the next. */
  lemma CategoryListNamesInOrder()
    ensures NameLess(MCategoryListValues.name, MCategoryList.name)
    ensures NameLess(MCategoryList.name, MCategorySerializer.name)
    ensures NameLess(MCategorySerializer.name, MDynamicCategoryQueryFilter.name)
  {
    NameLessAt(MCategoryListValues.name, MCategoryList.name, 13);
    NameLessAt(MCategoryList.name, MCategorySerializer.name, 8);
    NameLessAt(MCategorySerializer.name, MDynamicCategoryQueryFilter.name, 0);
  }

  /** From `DynamicCategoryQueryFilterViewSet` to `OpenApiParameter`, each name sorts before the next. */
  lemma DynamicNamesInOrder()
    ensures NameLess(MDynamicCategoryQueryFilter.name, MDynamicCategoryURLFilter.name)
    ensures NameLess(MDynamicCategoryURLFilter.name, MInactiveCategoryExclude.name)
    ensures NameLess(MInactiveCategoryExclude.name, MOpenApiParameter.name)
  {
    NameLessAt(MDynamicCategoryQueryFilter.name, MDynamicCategoryURLFilter.name, 15);
    NameLessAt(MDynamicCategoryURLFilter.name, MInactiveCategoryExclude.name, 0);
    NameLessAt(MInactiveCategoryExclude.name, MOpenApiParameter.name, 0);
  }

  /** From `OpenApiParameter` to `extend_schema`, each name sorts before the next. */
  lemma ImportedNamesInOrder()
    ensures NameLess(MOpenApiParameter.name, MResponse.name)
    ensures NameLess(MResponse.name, MViewSetBase.name)
    ensures NameLess(MViewSetBase.name, MExtendSchema.name)
  {
    NameLessAt(MOpenApiParameter.name, MResponse.name, 0);
    NameLessAt(MResponse.name, MViewSetBase.name, 0);
    NameLessAt(MViewSetBase.name, MExtendSchema.name, 0);
  }

  // The same facts, indexed by position in the member sequence.

  lemma CategoryNeighbours(i: int)
    requires 0 <= i < 3
    ensures NameLess(ViewsMembers()[i].name, ViewsMembers()[i + 1].name)
  {
    CategoryNamesInOrder();
    var ms := ViewsMembers();
    if i == 0 {
      assert ms[0] == MCategory && ms[1] == MCategoryFilter;
    } else if i == 1 {
      assert ms[1] == MCategoryFilter && ms[2] == MCategoryListOnly;
    } else {
      assert ms[2] == MCategoryListOnly && ms[3] == MCategoryListValues;
    }
  }

  lemma CategoryListNeighbours(i: int)
    requires 3 <= i < 6
    ensures NameLess(ViewsMembers()[i].name, ViewsMembers()[i + 1].name)
  {
    CategoryListNamesInOrder();
    var ms := ViewsMembers();
    if i == 3 {
      assert ms[3] == MCategoryListValues && ms[4] == MCategoryList;
    } else if i == 4 {
      assert ms[4] == MCategoryList && ms[5] == MCategorySerializer;
    } else {
      assert ms[5] == MCategorySerializer && ms[6] == MDynamicCategoryQueryFilter;
    }
  }

  lemma DynamicNeighbours(i: int)
    requires 6 <= i < 9
    ensures NameLess(ViewsMembers()[i].name, ViewsMembers()[i + 1].name)
  {
    DynamicNamesInOrder();
    var ms := ViewsMembers();
    if i == 6 {
      assert ms[6] == MDynamicCategoryQueryFilter && ms[7] == MDynamicCategoryURLFilter;
    } else if i == 7 {
      assert ms[7] == MDynamicCategoryURLFilter && ms[8] == MInactiveCategoryExclude;
    } else {
      assert ms[8] == MInactiveCategoryExclude && ms[9] == MOpenApiParameter;
    }
  }

  lemma ImportedNeighbours(i: int)
    requires 9 <= i < 12
    ensures NameLess(ViewsMembers()[i].name, ViewsMembers()[i + 1].name)
  {
    ImportedNamesInOrder();
    var ms := ViewsMembers();
    if i == 9 {
      assert ms[9] == MOpenApiParameter && ms[10] == MResponse;
    } else if i == 10 {
      assert ms[10] == MResponse && ms[11] == MViewSetBase;
    } else {
      assert ms[11] == MViewSetBase && ms[12] == MExtendSchema;
    }
  }

  /** Each member of the views module sorts before the next one. */
  lemma ViewsMembersNeighboursInOrder(i: int)
    requires 0 <= i < |ViewsMembers()| - 1
    ensures NameLess(ViewsMembers()[i].name, ViewsMembers()[i + 1].name)
  {
    if i < 3 {
      CategoryNeighbours(i);
    } else if i < 6 {
      CategoryListNeighbours(i);
    } else if i < 9 {
      DynamicNeighbours(i);
    } else {
      ImportedNeighbours(i);
    }
  }

  /** The member order written above is the name order `getmembers` produces. */
  lemma ViewsMembersSortedByName()
    ensures SortedByName(ViewsMembers())
  {
    forall i | 0 <= i < |ViewsMembers()| - 1
      ensures NameLess(ViewsMembers()[i].name, ViewsMembers()[i + 1].name)
    {
      ViewsMembersNeighboursInOrder(i);
    }
    SortedByNameFromNeighbours(ViewsMembers());
  }

  /** Because the members are sorted by name, so are the six registered view sets. */
  lemma RegisteredViewSetsSortedByName()
    ensures SortedByName(RegisteredViewSets())
  {
    ViewsMembersSortedByName();
    RegistrationsSortedByName(ViewsMembers(), ViewsModule);
    ViewsModuleRegistrations();
  }

  /**
   * A class whose lower-cased name is `lowered + "viewset"`, where `lowered`
   * never has "vi" side by side, is routed at `lowered`.
   */
  lemma StemRoute(name: string, lowered: string)
    requires Lower(name) == lowered + Suffix
    requires forall i :: 0 <= i < |lowered| - 1 ==> !(lowered[i] == 'v' && lowered[i + 1] == 'i')
    ensures UrlPrefix(name) == lowered
  {
    NoOccurrenceFromPair(lowered, Suffix);
    SuffixUnbordered();
    RemoveAllTrailingPattern(lowered, Suffix);
    RemoveAllFixedIff(lowered, Suffix);
  }

  // The URL prefix of each view set defined in the views module.

  lemma PrefixOfCategoryFilter()
    ensures UrlPrefix(MCategoryFilter.name) == "categoryfilter"
  {
    StemRoute(MCategoryFilter.name, "categoryfilter");
  }

  lemma PrefixOfCategoryListOnly()
    ensures UrlPrefix(MCategoryListOnly.name) == "categorylistonly"
  {
    StemRoute(MCategoryListOnly.name, "categorylistonly");
  }

  lemma PrefixOfCategoryListValues()
    ensures UrlPrefix(MCategoryListValues.name) == "categorylistvalues"
  {
    StemRoute(MCategoryListValues.name, "categorylistvalues");
  }

  lemma PrefixOfCategoryList()
    ensures UrlPrefix(MCategoryList.name) == "categorylist"
  {
    StemRoute(MCategoryList.name, "categorylist");
  }

  lemma PrefixOfDynamicCategoryQueryFilter()
    ensures UrlPrefix(MDynamicCategoryQueryFilter.name) == "dynamiccategoryqueryfilter"
  {
    StemRoute(MDynamicCategoryQueryFilter.name, "dynamiccategoryqueryfilter");
  }

  lemma PrefixOfInactiveCategoryExclude()
    ensures UrlPrefix(MInactiveCategoryExclude.name) == "inactivecategoryexclude"
  {
    StemRoute(MInactiveCategoryExclude.name, "inactivecategoryexclude");
  }

  /**
   * The routes registered over the views module, in registration order:
   * categoryfilter, categorylistonly, categorylistvalues, categorylist,
   * dynamiccategoryqueryfilter, inactivecategoryexclude.
   */
  lemma ViewsModulePrefixes()
    ensures |AutoRegister(ViewsMembers(), ViewsModule)| == 6
    ensures AutoRegister(ViewsMembers(), ViewsModule)[0].prefix == "categoryfilter"
    ensures AutoRegister(ViewsMembers(), ViewsModule)[1].prefix == "categorylistonly"
    ensures AutoRegister(ViewsMembers(), ViewsModule)[2].prefix == "categorylistvalues"
    ensures AutoRegister(ViewsMembers(), ViewsModule)[3].prefix == "categorylist"
    ensures AutoRegister(ViewsMembers(), ViewsModule)[4].prefix == "dynamiccategoryqueryfilter"
    ensures AutoRegister(ViewsMembers(), ViewsModule)[5].prefix == "inactivecategoryexclude"
  {
    ViewsModuleRegistrations();
    var regs := AutoRegister(ViewsMembers(), ViewsModule);
    assert ViewsOf(regs)[0] == MCategoryFilter;
    PrefixOfCategoryFilter();
    assert ViewsOf(regs)[1] == MCategoryListOnly;
    PrefixOfCategoryListOnly();
    assert ViewsOf(regs)[2] == MCategoryListValues;
    PrefixOfCategoryListValues();
    assert ViewsOf(regs)[3] == MCategoryList;
    PrefixOfCategoryList();
    assert ViewsOf(regs)[4] == MDynamicCategoryQueryFilter;
    PrefixOfDynamicCategoryQueryFilter();
    assert ViewsOf(regs)[5] == MInactiveCategoryExclude;
    PrefixOfInactiveCategoryExclude();
  }
}
