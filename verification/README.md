# Module 5 routing and category listings, modelled in Dafny

The repository is a course project of Django REST Framework endpoints over an
inventory schema. Only module 5 has logic of its own:

- **Automatic route registration** (`app/module5/urls.py`). A loop walks
  `getmembers(views, isclass)`. It keeps a class only if three tests pass:
  the class subclasses `ViewSet`, it is defined in the views module, and its
  name is not `DynamicCategoryURLFilterViewSet`. Each kept class is registered
  with the router under a URL prefix `name.lower().replace('viewset', '')` and
  a basename `name.lower()`. The excluded class is wired by hand to
  `categories/active/<str:active_status>/`.
- **Category listings** (`app/module5/views.py`). Two fixed filters on
  `is_active`: `filter(is_active=False)` and `exclude(is_active=True)`. There is
  also a tri-state `active` parameter, taken from the query string in
  `DynamicCategoryQueryFilterViewSet` and from the path in
  `DynamicCategoryURLFilterViewSet`:
  - absent: all categories;
  - `"true"` in any case: the active ones;
  - `"false"` in any case: the inactive ones;
  - anything else: all categories.

Files:

- `wrappers.dfy`: `Option`, standing for a parameter that may be `None`.
- `ascii.dfy`: ASCII lower-casing, Python's `str.lower` restricted to ASCII.
- `replace.dfy`: `s.replace(p, "")` as a left-to-right, non-overlapping
  removal. It comes with a scanning-loop implementation proved equal to it.
- `routing.dfy`: member descriptors, the registration loop, the
  `urlpatterns` of the module, and the `<str:active_status>` path match.
- `categories.dfy`: category rows, `filter`/`exclude` on `is_active`, and
  the four listing actions.
- `module5_views.dfy`: the actual members of the views module and the six
  routes they produce.

A member descriptor is `Member(name, isClass, isViewSetSubclass, definedIn)`.
The input to registration is every name bound by the module's imports and
class statements, in the name order `getmembers` produces. The `isclass` predicate passed to
`getmembers` is modelled as the `isClass` test inside `Routing.Qualifies`,
so a non-class member such as `extend_schema` is in the input and fails
that test rather than being absent. `getmembers` sorts by name, so the routes are registered in name order:
`categoryfilter`, `categorylistonly`, `categorylistvalues`, `categorylist`,
`dynamiccategoryqueryfilter`, `inactivecategoryexclude`. This is not the
order in which the classes appear in the file. The router is modelled as a
list that registrations are appended to. A query set is the sequence of
rows it yields, and `filter`/`exclude` keep row order.

The basename is `name.lower()` with nothing removed
(`app/module5/urls.py:18`); only the prefix has `viewset` removed, and
`Routing.RegisteredNames` states how the two relate.

Note that `app/core/urls.py:10` has the include of `module5.urls` commented
out. The module's routes are therefore defined but not served by the
project as it stands. The model describes the module's own `urlpatterns`.

## Model

| member | source | states |
|---|---|---|
| `Ascii.LowerEqualsWordIff` | app/module5/views.py:53-56 | a parameter lower-cases to a lower-case word such as "true" or "false" exactly when it is that word spelled with any mix of capitals |
| `Ascii.LowerFixedIff` | app/module5/urls.py:18 | lower-casing leaves a name unchanged exactly when it has no ASCII capital |
| `Ascii.LowerIdempotent` | app/module5/urls.py:18 | lower-casing an already lower-cased name changes nothing |
| `Ascii.LowerAppend` | app/module5/urls.py:18 | lower-casing a name is lower-casing its stem and its ending separately |
| `Replace.RemoveAllScan` | app/module5/urls.py:18 | the scanning loop that deletes each occurrence and moves past it gives exactly the left-to-right non-overlapping removal |
| `Ascii.Lower` | app/module5/urls.py:18 | `str.lower` on ASCII: the result has the input's length and no capital letter |
| `Replace.RemoveAll` | app/module5/urls.py:18 | `s.replace(p, '')` as a left-to-right non-overlapping removal: the result is never longer than the input; its partners are `Replace.RemoveAllScan` and `Replace.RemoveAllFixedIff` |
| `Replace.RemoveAllFixedIff` | app/module5/urls.py:18 | `replace('viewset', '')` leaves a string unchanged if and only if "viewset" does not occur in it; otherwise the result is strictly shorter |
| `Replace.RemoveAllTrailingPattern` | app/module5/urls.py:18 | for a pattern that cannot overlap itself, such as "viewset", removing from `x + pattern` gives the same as removing from `x`: the trailing copy is deleted and nothing across the boundary is |
| `Replace.NoOccurrenceFromPair` | app/module5/urls.py:18 | if the first two letters of the pattern never stand side by side in a string, the pattern does not occur in it |
| `Routing.Qualifies` | app/module5/urls.py:14-16 | the three tests of the loop: the member is a class, it subclasses `ViewSet` and is defined in the views module, and its name is not `DynamicCategoryURLFilterViewSet` |
| `Routing.RegistrationOf` | app/module5/urls.py:17-18 | the `router.register` call records the class itself, with the prefix and basename derived from its name |
| `Routing.UrlPrefix` | app/module5/urls.py:18 | the router prefix is lower-case and never longer than the class name |
| `Routing.Basename` | app/module5/urls.py:18 | the basename is lower-case and exactly as long as the class name |
| `Routing.AutoRegister` | app/module5/urls.py:14-19 | every registration is for a member that is a class, subclasses `ViewSet`, is defined in the views module and is not `DynamicCategoryURLFilterViewSet`; it carries that class's derived prefix and basename; there are never more registrations than members. That each registered class is one of the members is stated by `Routing.RegisteredIff` |
| `Routing.RegisterViewSets` | app/module5/urls.py:14-19 | the loop that appends to the router, one member at a time with the nested tests of the source, produces exactly the registrations of `AutoRegister` |
| `Routing.RegisteredNames` | app/module5/urls.py:18 | each registration's basename is its class name lower-cased with nothing removed, and its prefix is that basename with every "viewset" removed |
| `Routing.RegisteredClassesAreQualifyingMembers` | app/module5/urls.py:14-16 | the registered classes are exactly the members passing the three tests, in iteration order |
| `Routing.AutoRegisterAppend` | app/module5/urls.py:14-19 | scanning two member lists one after the other registers the routes of the first and then those of the second |
| `Routing.QualifyingAppend` | app/module5/urls.py:14-16 | the qualifying members of two concatenated lists are those of the first followed by those of the second |
| `Routing.RegistrationCount` | app/module5/urls.py:14-19 | a member is registered exactly as often as it occurs among the members if it qualifies, and never otherwise |
| `Routing.RegisteredIff` | app/module5/urls.py:14-16 | a member is registered if and only if it is among the members and passes all three tests |
| `Routing.ExactlyOneRegistration` | app/module5/urls.py:14-19 | when member names are distinct, as attribute names of a module are, each qualifying member has exactly one registration |
| `Routing.QualifyingIndicesExact` | app/module5/urls.py:14-16 | the listed indices increase strictly and are exactly the positions of qualifying members |
| `Routing.RegistrationOrder` | app/module5/urls.py:14-19 | the k-th registration is the registration of the k-th qualifying member: the order follows member iteration order |
| `Routing.NameLessTransitive` | app/module5/urls.py:14 | Python's code-point ordering of names, by which `getmembers` sorts, is transitive |
| `Routing.SortedByNameFromNeighbours` | app/module5/urls.py:14 | a member sequence whose neighbours are in name order is sorted by name |
| `Routing.RegistrationsSortedByName` | app/module5/urls.py:14 | because `getmembers` yields members sorted by name, the registered classes are sorted by name too |
| `Routing.ExcludedNeverAutoRegistered` | app/module5/urls.py:16 | no registration is for a class called `DynamicCategoryURLFilterViewSet`, whatever its other attributes |
| `Routing.SuffixRemovedInAnyCase` | app/module5/urls.py:18 | because lower-casing comes first, a name ending in any spelling of "ViewSet" (`ViewSet`, `Viewset`, `VIEWSET`, ...) has that ending removed from its prefix |
| `Routing.PrefixIsLoweredStem` | app/module5/urls.py:18 | when the lower-cased stem does not itself contain "viewset", the prefix of `stem + "ViewSet"` is the lower-cased stem and the basename is the stem followed by "viewset" |
| `Routing.CaseVariantsCollide` | app/module5/urls.py:18 | names that differ only in the case of ASCII letters get the same prefix and the same basename |
| `Routing.SuffixUnbordered` | app/module5/urls.py:18 | "viewset" cannot overlap itself: no proper suffix of it is also a prefix |
| `Routing.ListRoute` | app/module5/urls.py:22 | the list route of a registration starts with the include route; it is `<route><prefix>/` for a non-empty prefix and the include route itself for an empty one |
| `Routing.RouterRoutesTo` | app/module5/urls.py:22 | the list routes a router include offers for a class name, in registration order, one per registration of a class with that name: never more routes than registrations |
| `Routing.RoutesTo` | app/module5/urls.py:21-27 | every route template in the url patterns that dispatches to a class of the given name, from router includes and from hand-wired paths, in pattern order |
| `Routing.UrlPatterns` | app/module5/urls.py:21-27 | the module's url patterns are the router include followed by the hand-wired path |
| `Routing.ExcludedOnlyThroughManualPath` | app/module5/urls.py:16-26 | `DynamicCategoryURLFilterViewSet` is reachable through exactly one route, `categories/active/<str:active_status>/` |
| `Routing.QualifyingMemberRouted` | app/module5/urls.py:14-22 | every qualifying member has its list route under `api/mod5/` among the routes that dispatch to it |
| `Routing.MatchActiveStatus` | app/module5/urls.py:24 | a path matched by `categories/active/<str:active_status>/` is exactly that template with a non-empty segment containing no '/', and the segment is what is captured |
| `Routing.MatchActiveStatusOfPath` | app/module5/urls.py:24 | every non-empty segment without '/' is captured back from its path |
| `CategoryViews.FilterIsActive` | app/module5/views.py:37 | `filter(is_active=v)` keeps exactly the rows whose `is_active` is `v` |
| `CategoryViews.ExcludeIsActive` | app/module5/views.py:84 | `exclude(is_active=v)` keeps exactly the rows whose `is_active` is not `v` |
| `CategoryViews.FilterIsActiveCounts` | app/module5/views.py:54-56 | filtering keeps every matching row as many times as it occurs and drops every other row |
| `CategoryViews.ActiveSplit` | app/module5/views.py:50-56 | the "true" result and the "false" result are disjoint, each is part of the collection, and together they are all of it |
| `CategoryViews.ExcludeActiveIsFilterInactive` | app/module5/views.py:84 | excluding the active rows gives the same rows, in the same order, as keeping the inactive rows |
| `CategoryViews.CategoryFilterList` | app/module5/views.py:35-39 | `CategoryFilterViewSet` lists exactly the inactive categories |
| `CategoryViews.InactiveCategoryExcludeList` | app/module5/views.py:78-86 | `InactiveCategoryExcludeViewSet` lists exactly the categories that are not active |
| `CategoryViews.FixedInactiveListingsAgree` | app/module5/views.py:84 | the two fixed listings return the same rows in the same order |
| `CategoryViews.QueryFilterList` | app/module5/views.py:48-58 | no parameter gives the full collection unchanged; a parameter lower-casing to "true" gives exactly the active categories; "false" gives exactly the inactive ones; any other value gives the full collection, with no error |
| `CategoryViews.UrlFilterList` | app/module5/views.py:65-75 | the same four cases for the `active_status` path segment, which defaults to None |
| `CategoryViews.PathAndQueryVariantsAgree` | app/module5/views.py:65-75 | the path variant agrees with the query variant on every parameter and collection |
| `CategoryViews.NarrowedOnlyByTrueOrFalse` | app/module5/views.py:52-56 | the listing differs from the full collection only when the parameter is present and is "true" or "false" spelled with some mix of capitals |
| `CategoryViews.QueryFilterIsSubCollection` | app/module5/views.py:50-56 | whatever the parameter, the listing is a sub-multiset of the categories |
| `Module5Views.ViewsMembers` | app/module5/views.py:1-86 | the thirteen members of the views module, imported and defined, in name order |
| `Module5Views.ViewsMembersNeighboursInOrder` | app/module5/views.py:1-86 | each member of the views module sorts before the next one in Python's string order |
| `Module5Views.ViewsMembersSortedByName` | app/module5/urls.py:14 | the member order used for the views module is the name order `getmembers` produces |
| `Module5Views.RegisteredViewSetsSortedByName` | app/module5/urls.py:14-19 | the six registered view sets are in name order, as a consequence of the sorted member order |
| `Module5Views.MemberVerdicts` | app/module5/urls.py:15-16 | of the views module's members, only the six locally defined view sets other than `DynamicCategoryURLFilterViewSet` pass the tests. The imported `Category`, `CategorySerializer`, `OpenApiParameter` and `Response` fail, and so do `ViewSet` itself (defined elsewhere) and `extend_schema` (not a class) |
| `Module5Views.ViewsModuleQualifying` | app/module5/urls.py:14-16 | the qualifying members of the views module, in `getmembers` order, are exactly those six view sets |
| `Module5Views.ViewsModuleRegistrations` | app/module5/urls.py:14-19 | the registered classes of the views module are exactly those six view sets, in name order |
| `Module5Views.StemRoute` | app/module5/urls.py:18 | a class whose lower-cased name is a "vi"-free stem followed by "viewset" is routed at that stem |
| `Module5Views.ViewsModulePrefixes` | app/module5/urls.py:14-19 | the views module registers six routes, with prefixes categoryfilter, categorylistonly, categorylistvalues, categorylist, dynamiccategoryqueryfilter and inactivecategoryexclude, in that order |

## Left out

- Router internals: `DefaultRouter.register` is library code, so registration is appending to a list. Nothing is claimed about the router's handling of duplicate basenames, which two case variants of one name would produce (`Routing.CaseVariantsCollide`).
- Router-generated routes other than each view set's list route `<prefix>/`: the API root view and the format-suffix variants come from the library. None of the view sets defines `retrieve`, so there are no detail routes.
- Routing.RouterRoutesTo, Routing.QualifyingMemberRouted: these list the route templates that dispatch to a class; they do not claim a request reaches it. When two registrations share a prefix (`Foo` and `FooViewSet` both give `foo`), Django dispatches to the earlier one and the later one is never reached. An empty prefix (a local view set named `ViewSet` in any case) gives the include route `api/mod5/` itself (`Routing.ListRoute`).
- Routing.RouterRoutesTo, Routing.QualifyingMemberRouted: every registration gets a list route. The router emits that route only for a view set that defines `list` or `create`; every view set in app/module5/views.py defines `list`, but the lemma is stated for any qualifying member and does not model which actions a class defines.
- Python's `getmembers`: the model takes the module's members already sorted by name (`Module5Views.ViewsMembersSortedByName` shows the sequence used is sorted). `isclass` is an `isClass` flag tested in `Routing.Qualifies`, and the `ViewSet`-subclass test is a flag as well. The module's own dunder attributes (`__builtins__`, `__doc__`, `__name__`, `__spec__` and the rest) are left out of the member sequence because none of them is a class, so none could be registered.
- `views.__name__` is taken to be `module5.views`. Registration takes the module name as a parameter, so only the scenario depends on this value.
- Routing.Basename, Routing.UrlPrefix: lower-casing is restricted to ASCII, because Python's Unicode `str.lower` (multi-character results, non-ASCII capitals) is out of scope here. Every identifier involved is ASCII.
- CategoryViews.QueryFilterList, CategoryViews.UrlFilterList: the `"true"`/`"false"` comparison uses the same ASCII lower-casing. Non-ASCII characters are left unchanged.
- Django's URL resolver: only the `str` converter of the one hand-wired path is modelled, as a non-empty segment without '/'.
- ORM query shaping in `CategoryListViewSet`, `CategoryListValuesViewSet` and `CategoryListOnlyViewSet` (`all()`, `values("name", "slug")`, `only("name", "slug")`). These return every row, with `values`/`only` restricting the columns, and have no logic of their own, so they appear only as registrations.
- Serialization (`CategorySerializer`), `Response` and the `extend_schema` annotations are presentation only.
- The database: a query set is the sequence of rows it yields, and row order is whatever the database returns.
- CategoryViews.ExcludeActiveIsFilterInactive, CategoryViews.FixedInactiveListingsAgree: "the same rows in the same order" rests on two assumptions. First, every query set yields an order-preserving sub-sequence of one shared table order; the code has no `order_by`, and the `Category` model's ordering is not part of this model. Second, `is_active` is never NULL: `is_active` is a `bool` here, while on a nullable column `exclude(is_active=True)` keeps NULL rows and `filter(is_active=False)` drops them. The `Category` model definition is not part of this model.
