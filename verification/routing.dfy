/**
 * Automatic router registration of module 5 (app/module5/urls.py): every
 * class defined in the views module that subclasses `ViewSet` is registered
 * under a prefix derived from its name, except
 * `DynamicCategoryURLFilterViewSet`, which is wired by hand to a path with a
 * parameter.
 */
module Routing {
  import opened Wrappers
  import opened Ascii
  import opened Replace

  /**
   * One member of the views module as `getmembers(views)` reports it: its
   * attribute name, whether it is a class, whether it subclasses `ViewSet`,
   * and the `__module__` the class was defined in.
   */
  datatype Member = Member(name: string, isClass: bool, isViewSetSubclass: bool, definedIn: string)

  /** What `router.register(prefix, cls, basename=...)` records. */
  datatype Registration = Registration(prefix: string, view: Member, basename: string)

  /** The one view set that must not be registered automatically. */
  const ExcludedName: string := "DynamicCategoryURLFilterViewSet"

  /** The word removed from a lower-cased class name to form its prefix. */
  const Suffix: string := "viewset"

  /** The basename: the class name lower-cased, nothing removed. */
  function Basename(name: string): (r: string)
    ensures |r| == |name| && IsLowerCase(r)
  {
    Lower(name)
  }

  /** The URL prefix: the class name lower-cased, then every "viewset" removed. */
  function UrlPrefix(name: string): (r: string)
    ensures |r| <= |name| && IsLowerCase(r)
  {
    var r := RemoveAll(Basename(name), Suffix);
    RemoveAllKeepsLowerCase(Basename(name), Suffix);
    r
  }

  lemma {:induction false} RemoveAllKeepsLowerCase(s: string, p: string)
    requires IsLowerCase(s)
    ensures IsLowerCase(RemoveAll(s, p))
    decreases |s|
  {
    if |p| > 0 && |s| >= |p| {
      if s[..|p|] == p {
        RemoveAllKeepsLowerCase(s[|p|..], p);
      } else {
        RemoveAllKeepsLowerCase(s[1..], p);
      }
    }
  }

  /** The three tests of the registration loop, in the order it applies them. */
  predicate Qualifies(m: Member, viewsModule: string) {
    && m.isClass
    && m.isViewSetSubclass
    && m.definedIn == viewsModule
    && m.name != ExcludedName
  }

  function RegistrationOf(m: Member): (r: Registration)
    ensures r.view == m
  {
    Registration(UrlPrefix(m.name), m, Basename(m.name))
  }

  /**
   * The routes registered by the loop over `members`, in iteration order.
   * Every registration comes from a qualifying member and carries the
   * prefix and basename derived from that member's name.
   */
  function AutoRegister(members: seq<Member>, viewsModule: string): (r: seq<Registration>)
    ensures |r| <= |members|
    ensures forall i :: 0 <= i < |r| ==> Qualifies(r[i].view, viewsModule) && r[i] == RegistrationOf(r[i].view)
  {
    if |members| == 0 then []
    else
      var rest := AutoRegister(members[1..], viewsModule);
      if Qualifies(members[0], viewsModule) then [RegistrationOf(members[0])] + rest else rest
  }

  /**
   * Every registered route is named after its class: the basename is the
   * lower-cased class name, and the prefix is the basename with every
   * "viewset" removed.
   */
  lemma RegisteredNames(members: seq<Member>, viewsModule: string, i: int)
    requires 0 <= i < |AutoRegister(members, viewsModule)|
    ensures var reg := AutoRegister(members, viewsModule)[i];
            && reg.basename == Lower(reg.view.name)
            && reg.prefix == RemoveAll(reg.basename, Suffix)
            && reg.prefix == RemoveAll(Lower(reg.view.name), Suffix)
  {
  }

  /** The loop of the source, appending to the router one member at a time. */
  method RegisterViewSets(members: seq<Member>, viewsModule: string) returns (router: seq<Registration>)
    ensures router == AutoRegister(members, viewsModule)
  {
    router := [];
    var i := 0;
    while i < |members|
      invariant 0 <= i <= |members|
      invariant router == AutoRegister(members[..i], viewsModule)
    {
      var m := members[i];
      AutoRegisterAppend(members[..i], [m], viewsModule);
      assert members[..i + 1] == members[..i] + [m];
      if m.isClass && m.isViewSetSubclass && m.definedIn == viewsModule {
        if m.name != ExcludedName {
          router := router + [Registration(UrlPrefix(m.name), m, Basename(m.name))];
        }
      }
      i := i + 1;
    }
    assert members[..|members|] == members;
  }

  /** The members that pass all three tests, in iteration order. */
  function QualifyingMembers(members: seq<Member>, viewsModule: string): (qs: seq<Member>)
    ensures |qs| <= |members|
  {
    if |members| == 0 then []
    else
      var rest := QualifyingMembers(members[1..], viewsModule);
      if Qualifies(members[0], viewsModule) then [members[0]] + rest else rest
  }

  /** The registered classes are exactly the qualifying members, in the same order. */
  lemma {:induction false} RegisteredClassesAreQualifyingMembers(members: seq<Member>, viewsModule: string)
    ensures ViewsOf(AutoRegister(members, viewsModule)) == QualifyingMembers(members, viewsModule)
    decreases |members|
  {
    if |members| > 0 {
      RegisteredClassesAreQualifyingMembers(members[1..], viewsModule);
      var rest := AutoRegister(members[1..], viewsModule);
      if Qualifies(members[0], viewsModule) {
        assert ViewsOf([RegistrationOf(members[0])] + rest) == [members[0]] + ViewsOf(rest);
      }
    }
  }

  lemma {:induction false} QualifyingAppend(a: seq<Member>, b: seq<Member>, viewsModule: string)
    ensures QualifyingMembers(a + b, viewsModule) == QualifyingMembers(a, viewsModule) + QualifyingMembers(b, viewsModule)
    decreases |a|
  {
    if |a| > 0 {
      assert (a + b)[1..] == a[1..] + b;
      QualifyingAppend(a[1..], b, viewsModule);
    } else {
      assert a + b == b;
    }
  }

  lemma QualifyingCons(m: Member, rest: seq<Member>, viewsModule: string)
    ensures QualifyingMembers([m] + rest, viewsModule) ==
              (if Qualifies(m, viewsModule) then [m] else []) + QualifyingMembers(rest, viewsModule)
  {
    assert ([m] + rest)[1..] == rest;
  }

  /** Scanning two lists one after the other registers both in turn. */
  lemma {:induction false} AutoRegisterAppend(a: seq<Member>, b: seq<Member>, viewsModule: string)
    ensures AutoRegister(a + b, viewsModule) == AutoRegister(a, viewsModule) + AutoRegister(b, viewsModule)
    decreases |a|
  {
    if |a| > 0 {
      assert (a + b)[1..] == a[1..] + b;
      AutoRegisterAppend(a[1..], b, viewsModule);
    } else {
      assert a + b == b;
    }
  }

  function ViewsOf(r: seq<Registration>): (vs: seq<Member>)
    ensures |vs| == |r| && forall i :: 0 <= i < |r| ==> vs[i] == r[i].view
  {
    seq(|r|, i requires 0 <= i < |r| => r[i].view)
  }

  /**
   * Each member is registered exactly as many times as it occurs among the
   * members when it qualifies, and never otherwise.
   */
  lemma {:induction false} RegistrationCount(members: seq<Member>, viewsModule: string, m: Member)
    ensures multiset(ViewsOf(AutoRegister(members, viewsModule)))[m] ==
              if Qualifies(m, viewsModule) then multiset(members)[m] else 0
    decreases |members|
  {
    if |members| > 0 {
      RegistrationCount(members[1..], viewsModule, m);
      var rest := AutoRegister(members[1..], viewsModule);
      assert members == [members[0]] + members[1..];
      if Qualifies(members[0], viewsModule) {
        assert ViewsOf([RegistrationOf(members[0])] + rest) == [members[0]] + ViewsOf(rest);
      }
    }
  }

  /** A member is registered if and only if it is among the members and passes all three tests. */
  lemma RegisteredIff(members: seq<Member>, viewsModule: string, m: Member)
    ensures m in ViewsOf(AutoRegister(members, viewsModule)) <==> m in members && Qualifies(m, viewsModule)
  {
    RegistrationCount(members, viewsModule, m);
    assert m in ViewsOf(AutoRegister(members, viewsModule)) <==> m in multiset(ViewsOf(AutoRegister(members, viewsModule)));
  }

  /** Attribute names in a module are distinct, so a qualifying member is registered exactly once. */
  lemma ExactlyOneRegistration(members: seq<Member>, viewsModule: string, j: int)
    requires forall a, b :: 0 <= a < b < |members| ==> members[a].name != members[b].name
    requires 0 <= j < |members| && Qualifies(members[j], viewsModule)
    ensures multiset(ViewsOf(AutoRegister(members, viewsModule)))[members[j]] == 1
  {
    RegistrationCount(members, viewsModule, members[j]);
    DistinctNamesOccurOnce(members, j);
  }

  lemma {:induction false} DistinctNamesOccurOnce(members: seq<Member>, j: int)
    requires forall a, b :: 0 <= a < b < |members| ==> members[a].name != members[b].name
    requires 0 <= j < |members|
    ensures multiset(members)[members[j]] == 1
    decreases |members|
  {
    assert members == members[..j] + [members[j]] + members[j + 1..];
    assert members[j] !in members[..j];
    assert members[j] !in members[j + 1..];
  }

  /** The indices of the qualifying members among the first `n`, in increasing order. */
  function QualifyingIndices(members: seq<Member>, viewsModule: string, n: nat): (idx: seq<nat>)
    requires n <= |members|
    ensures forall k :: 0 <= k < |idx| ==> idx[k] < n
  {
    if n == 0 then []
    else
      var idx := QualifyingIndices(members, viewsModule, n - 1);
      if Qualifies(members[n - 1], viewsModule) then idx + [n - 1] else idx
  }

  /** The indices listed are increasing and are exactly the positions of qualifying members. */
  lemma {:induction false} QualifyingIndicesExact(members: seq<Member>, viewsModule: string, n: nat)
    requires n <= |members|
    ensures var idx := QualifyingIndices(members, viewsModule, n);
            && (forall k, l :: 0 <= k < l < |idx| ==> idx[k] < idx[l])
            && (forall j :: 0 <= j < n ==> (j in idx <==> Qualifies(members[j], viewsModule)))
  {
    if n > 0 {
      QualifyingIndicesExact(members, viewsModule, n - 1);
    }
  }

  /**
   * Registration order follows member order: the k-th registration is the
   * k-th qualifying member.
   */
  lemma {:induction false} RegistrationOrder(members: seq<Member>, viewsModule: string, n: nat)
    requires n <= |members|
    ensures |AutoRegister(members[..n], viewsModule)| == |QualifyingIndices(members, viewsModule, n)|
    ensures forall k :: 0 <= k < |QualifyingIndices(members, viewsModule, n)| ==>
              AutoRegister(members[..n], viewsModule)[k] == RegistrationOf(members[QualifyingIndices(members, viewsModule, n)[k]])
  {
    if n > 0 {
      RegistrationOrder(members, viewsModule, n - 1);
      RegistrationOrderStep(members, viewsModule, n);
    }
  }

  lemma RegistrationOrderStep(members: seq<Member>, viewsModule: string, n: nat)
    requires 0 < n <= |members|
    ensures AutoRegister(members[..n], viewsModule) ==
              AutoRegister(members[..n - 1], viewsModule) +
              (if Qualifies(members[n - 1], viewsModule) then [RegistrationOf(members[n - 1])] else [])
    ensures QualifyingIndices(members, viewsModule, n) ==
              QualifyingIndices(members, viewsModule, n - 1) +
              (if Qualifies(members[n - 1], viewsModule) then [n - 1] else [])
  {
    var m := members[n - 1];
    assert members[..n] == members[..n - 1] + [m];
    assert AutoRegister([m], viewsModule) == (if Qualifies(m, viewsModule) then [RegistrationOf(m)] else []) by {
      assert [m][1..] == [];
    }
    AutoRegisterAppend(members[..n - 1], [m], viewsModule);
  }

  /** Python's ordering of strings: lexicographic by code point. */
  predicate NameLess(a: string, b: string) {
    (|a| < |b| && a == b[..|a|]) ||
    (exists k :: 0 <= k < |a| && k < |b| && a[..k] == b[..k] && a[k] < b[k])
  }

  /** `getmembers` returns members sorted by name. */
  predicate SortedByName(members: seq<Member>) {
    forall a, b :: 0 <= a < b < |members| ==> NameLess(members[a].name, members[b].name)
  }

  /** Strings that agree on their first `k` characters agree on any shorter head. */
  lemma SameHead(a: string, b: string, k: int, j: int)
    requires 0 <= j <= k <= |a| && k <= |b| && a[..k] == b[..k]
    ensures a[..j] == b[..j]
  {
    assert a[..j] == a[..k][..j];
    assert b[..j] == b[..k][..j];
  }

  /** Python's string ordering is transitive. */
  lemma NameLessTransitive(a: string, b: string, c: string)
    requires NameLess(a, b) && NameLess(b, c)
    ensures NameLess(a, c)
  {
    if |a| < |b| && a == b[..|a|] {
      if |b| < |c| && b == c[..|b|] {
        SameHead(b, c, |b|, |a|);
        assert a == c[..|a|];
      } else {
        var k2 :| 0 <= k2 < |b| && k2 < |c| && b[..k2] == c[..k2] && b[k2] < c[k2];
        if k2 < |a| {
          SameHead(b, c, k2, k2);
          assert a[..k2] == b[..|a|][..k2];
          assert a[k2] == b[k2];
          assert 0 <= k2 < |a| && k2 < |c| && a[..k2] == c[..k2] && a[k2] < c[k2];
        } else {
          SameHead(b, c, k2, |a|);
          assert a == c[..|a|];
        }
      }
    } else {
      var k1 :| 0 <= k1 < |a| && k1 < |b| && a[..k1] == b[..k1] && a[k1] < b[k1];
      if |b| < |c| && b == c[..|b|] {
        SameHead(b, c, |b|, k1);
        assert b[k1] == c[k1];
        assert 0 <= k1 < |a| && k1 < |c| && a[..k1] == c[..k1] && a[k1] < c[k1];
      } else {
        var k2 :| 0 <= k2 < |b| && k2 < |c| && b[..k2] == c[..k2] && b[k2] < c[k2];
        var k := if k1 < k2 then k1 else k2;
        SameHead(a, b, k1, k);
        SameHead(b, c, k2, k);
        if k1 < k2 {
          SameHead(b, c, k2, k1 + 1);
          assert b[..k1 + 1][k1] == b[k1] && c[..k1 + 1][k1] == c[k1];
        } else if k2 < k1 {
          SameHead(a, b, k1, k2 + 1);
          assert a[..k2 + 1][k2] == a[k2] && b[..k2 + 1][k2] == b[k2];
        }
        assert 0 <= k < |a| && k < |c| && a[..k] == c[..k] && a[k] < c[k];
      }
    }
  }

  /** A member sequence whose neighbours are in name order is sorted by name. */
  lemma SortedByNameFromNeighbours(members: seq<Member>)
    requires forall i :: 0 <= i < |members| - 1 ==> NameLess(members[i].name, members[i + 1].name)
    ensures SortedByName(members)
  {
    forall a, b | 0 <= a < b < |members|
      ensures NameLess(members[a].name, members[b].name)
    {
      NeighboursChain(members, a, b);
    }
  }

  lemma {:induction false} NeighboursChain(members: seq<Member>, a: int, b: int)
    requires forall i :: 0 <= i < |members| - 1 ==> NameLess(members[i].name, members[i + 1].name)
    requires 0 <= a < b < |members|
    ensures NameLess(members[a].name, members[b].name)
    decreases b - a
  {
    if b > a + 1 {
      NeighboursChain(members, a, b - 1);
      NameLessTransitive(members[a].name, members[b - 1].name, members[b].name);
    }
  }

  /** A member whose name sorts before the head of a sorted sequence extends it. */
  lemma SortedCons(m: Member, rest: seq<Member>)
    requires SortedByName(rest)
    requires |rest| > 0 ==> NameLess(m.name, rest[0].name)
    ensures SortedByName([m] + rest)
  {
    var ms := [m] + rest;
    forall a, b | 0 <= a < b < |ms|
      ensures NameLess(ms[a].name, ms[b].name)
    {
      if a == 0 && b > 1 {
        NameLessTransitive(m.name, rest[0].name, rest[b - 1].name);
      }
    }
  }

  /** Since `getmembers` sorts by name, the routes are registered in name order too. */
  lemma RegistrationsSortedByName(members: seq<Member>, viewsModule: string)
    requires SortedByName(members)
    ensures SortedByName(ViewsOf(AutoRegister(members, viewsModule)))
  {
    RegistrationOrder(members, viewsModule, |members|);
    QualifyingIndicesExact(members, viewsModule, |members|);
    assert members[..|members|] == members;
  }

  /** `DynamicCategoryURLFilterViewSet` never receives an automatic route, whatever its flags. */
  lemma ExcludedNeverAutoRegistered(members: seq<Member>, viewsModule: string)
    ensures forall i :: 0 <= i < |AutoRegister(members, viewsModule)| ==>
              AutoRegister(members, viewsModule)[i].view.name != ExcludedName
  {
  }

  /**
   * Because lower-casing comes first, a name ending in any spelling of
   * "ViewSet" has that ending removed from its prefix.
   */
  lemma SuffixRemovedInAnyCase(stem: string, ending: string)
    requires Lower(ending) == Suffix
    ensures UrlPrefix(stem + ending) == RemoveAll(Lower(stem), Suffix)
  {
    LowerAppend(stem, ending);
    SuffixUnbordered();
    RemoveAllTrailingPattern(Lower(stem), Suffix);
  }

  /**
   * When the lower-cased stem does not itself contain "viewset", the prefix
   * is exactly the lower-cased stem.
   */
  lemma PrefixIsLoweredStem(stem: string, ending: string)
    requires Lower(ending) == Suffix
    requires !Occurs(Lower(stem), Suffix)
    ensures UrlPrefix(stem + ending) == Lower(stem)
    ensures Basename(stem + ending) == Lower(stem) + Suffix
  {
    SuffixRemovedInAnyCase(stem, ending);
    RemoveAllFixedIff(Lower(stem), Suffix);
    LowerAppend(stem, ending);
  }

  /** Names that differ only in the case of ASCII letters share prefix and basename, so they collide. */
  lemma CaseVariantsCollide(a: string, b: string)
    requires |a| == |b| && forall i :: 0 <= i < |a| ==> LowerChar(a[i]) == LowerChar(b[i])
    ensures UrlPrefix(a) == UrlPrefix(b) && Basename(a) == Basename(b)
  {
    assert Lower(a) == Lower(b);
  }

  lemma SuffixUnbordered()
    ensures Unbordered(Suffix)
  {
    forall k | 0 < k < |Suffix|
      ensures Suffix[k..] != Suffix[..|Suffix| - k]
    {
      assert Suffix[k..][0] == Suffix[k] != 'v';
      assert Suffix[..|Suffix| - k][0] == 'v';
    }
  }

  /** One entry of `urlpatterns`. */
  datatype UrlPattern =
    | RouterInclude(route: string, registrations: seq<Registration>)
    | ViewPath(route: string, viewName: string)

  const ApiRoute: string := "api/mod5/"
  const ActiveStatusHead: string := "categories/active/"
  const ActiveStatusRoute: string := "categories/active/<str:active_status>/"

  /** The module's `urlpatterns`: the router under "api/mod5/" and the hand-wired path. */
  function UrlPatterns(members: seq<Member>, viewsModule: string): (ps: seq<UrlPattern>)
    ensures |ps| == 2 && ps[0].RouterInclude? && ps[1].ViewPath?
  {
    [ RouterInclude(ApiRoute, AutoRegister(members, viewsModule)),
      ViewPath(ActiveStatusRoute, ExcludedName) ]
  }

  /**
   * The list route the router emits for `prefix` under the include `route`:
   * `<route><prefix>/`, or the include route itself when the prefix is empty.
   */
  function ListRoute(route: string, prefix: string): (r: string)
    ensures |r| >= |route| && r[..|route|] == route
    ensures prefix != "" ==> |r| == |route| + |prefix| + 1 && r[|route|..|route| + |prefix|] == prefix && r[|r| - 1] == '/'
    ensures prefix == "" ==> r == route
  {
    if prefix == "" then route else route + prefix + "/"
  }

  /**
   * The list routes a router include offers for classes called `name`, in
   * registration order. Django dispatches a request to the first route that
   * matches, so a later registration whose route equals an earlier one is
   * listed here but never reached.
   */
  function RouterRoutesTo(route: string, regs: seq<Registration>, name: string): (routes: seq<string>)
    ensures |routes| <= |regs|
  {
    if |regs| == 0 then []
    else
      var rest := RouterRoutesTo(route, regs[1..], name);
      if regs[0].view.name == name then [ListRoute(route, regs[0].prefix)] + rest else rest
  }

  /** Every route template in `patterns` that dispatches to a class called `name`. */
  function RoutesTo(patterns: seq<UrlPattern>, name: string): (routes: seq<string>)
  {
    if |patterns| == 0 then []
    else
      var here := match patterns[0]
        case RouterInclude(route, regs) => RouterRoutesTo(route, regs, name)
        case ViewPath(route, viewName) => if viewName == name then [route] else [];
      here + RoutesTo(patterns[1..], name)
  }

  lemma {:induction false} NoRouterRouteWithoutRegistration(route: string, regs: seq<Registration>, name: string)
    requires forall i :: 0 <= i < |regs| ==> regs[i].view.name != name
    ensures RouterRoutesTo(route, regs, name) == []
    decreases |regs|
  {
    if |regs| > 0 {
      NoRouterRouteWithoutRegistration(route, regs[1..], name);
    }
  }

  lemma {:induction false} RouterRouteOfRegistration(route: string, regs: seq<Registration>, i: int)
    requires 0 <= i < |regs|
    ensures ListRoute(route, regs[i].prefix) in RouterRoutesTo(route, regs, regs[i].view.name)
    decreases |regs|
  {
    if i > 0 {
      RouterRouteOfRegistration(route, regs[1..], i - 1);
    }
  }

  /**
   * `DynamicCategoryURLFilterViewSet` is reachable through exactly one
   * route: the hand-wired path with the `active_status` parameter.
   */
  lemma ExcludedOnlyThroughManualPath(members: seq<Member>, viewsModule: string)
    ensures RoutesTo(UrlPatterns(members, viewsModule), ExcludedName) == [ActiveStatusRoute]
  {
    var ps := UrlPatterns(members, viewsModule);
    NoRouterRouteWithoutRegistration(ApiRoute, AutoRegister(members, viewsModule), ExcludedName);
    assert ps[1..][1..] == [];
    assert RoutesTo(ps[1..], ExcludedName) == [ActiveStatusRoute] + RoutesTo(ps[1..][1..], ExcludedName);
    assert RoutesTo(ps, ExcludedName) == [] + RoutesTo(ps[1..], ExcludedName);
  }

  /**
   * Every qualifying member has its list route under "api/mod5/" among the
   * routes that dispatch to it.
   */
  lemma QualifyingMemberRouted(members: seq<Member>, viewsModule: string, m: Member)
    requires m in members && Qualifies(m, viewsModule)
    ensures ListRoute(ApiRoute, UrlPrefix(m.name)) in RoutesTo(UrlPatterns(members, viewsModule), m.name)
  {
    var regs := AutoRegister(members, viewsModule);
    RegisteredIff(members, viewsModule, m);
    var i :| 0 <= i < |regs| && ViewsOf(regs)[i] == m;
    RouterRouteOfRegistration(ApiRoute, regs, i);
  }

  /** The path a request for status `seg` uses. */
  function ActiveStatusPath(seg: string): (path: string)
    ensures |path| == |ActiveStatusHead| + |seg| + 1 && path[|path| - 1] == '/'
  {
    ActiveStatusHead + seg + "/"
  }

  /**
   * Django's `<str:active_status>` converter: a non-empty segment without
   * '/'. Returns the captured segment, or None when the path does not match.
   */
  function MatchActiveStatus(path: string): (r: Option<string>)
    ensures r.Some? ==> path == ActiveStatusPath(r.value) && |r.value| > 0 && '/' !in r.value
  {
    var h := |ActiveStatusHead|;
    if |path| > h + 1 && path[..h] == ActiveStatusHead && path[|path| - 1] == '/' then
      var seg := path[h..|path| - 1];
      if '/' !in seg then
        assert path == path[..h] + seg + [path[|path| - 1]];
        Some(seg)
      else None
    else None
  }

  /** Every non-empty segment without '/' is captured back from its path. */
  lemma MatchActiveStatusOfPath(seg: string)
    requires |seg| > 0 && '/' !in seg
    ensures MatchActiveStatus(ActiveStatusPath(seg)) == Some(seg)
  {
    var path := ActiveStatusPath(seg);
    var h := |ActiveStatusHead|;
    assert path[..h] == ActiveStatusHead;
    assert path[h..|path| - 1] == seg;
  }
}
