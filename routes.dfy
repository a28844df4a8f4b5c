/**
 * The route-table helpers of route-utils.ts: route normalisation, the
 * positional-parameter glue, `getValueForKey`, `getChildrenArray`,
 * `pathExists`, `getParent` and `addChildPath`.
 *
 * The route table is taken as a structured view of the parsed routes file:
 * each route is an object literal with its properties in source order; a
 * property records whether it is a property assignment, the `text` of its
 * name and its value (a leaf with the `text` the parser gives it, or an
 * array literal of route objects). A route seen while walking the table
 * carries the chain of its syntactic ancestors, nearest first, standing in
 * for the parser's `parent` pointers.
 */
module Routes {
  import opened Util
  import opened Sorting

  datatype RouteObject = RouteObject(props: seq<Prop>, pos: int, closeBracePos: int)

  datatype Prop = Prop(isAssignment: bool, name: Option<string>, value: Option<Value>)

  /** A property value: its `text` if the parser gives it one, or an array literal. */
  datatype Value =
    | Leaf(text: Option<string>)
    | ArrayLit(elements: seq<RouteObject>, listPos: int)

  datatype Ancestor =
    | ObjectAncestor(obj: RouteObject)
    | ArrayAncestor
    | PropertyAncestor
    | ExportAncestor
    | SourceFileAncestor

  /** A route object together with its ancestors, nearest first. */
  datatype Located = Located(route: RouteObject, chain: seq<Ancestor>)

  // ---------------------------------------------------------------------
  // getValueForKey and getChildrenArray
  // ---------------------------------------------------------------------

  /**
   * `getValueForKey`: `path` is read from the first property and
   * `component` from the second; the value counts only when that property
   * is named `key`, and only a value with a `text` gives a string.
   */
  function GetValueForKey(obj: RouteObject, key: string): (r: Option<string>)
    ensures var k := if key == "component" then 1 else 0;
            r.Some? <==> k < |obj.props| && obj.props[k].name == Some(key)
                         && obj.props[k].value.Some? && obj.props[k].value.value.Leaf?
                         && obj.props[k].value.value.text.Some?
    ensures r.Some? ==> r.value == obj.props[if key == "component" then 1 else 0].value.value.text.value
  {
    var k := if key == "component" then 1 else 0;
    if k >= |obj.props| then None
    else
      var p := obj.props[k];
      if p.name != Some(key) || p.value.None? then None
      else match p.value.value
        case Leaf(text) => text
        case ArrayLit(_, _) => None
  }

  /** A `children: [...]` property assignment. */
  predicate IsChildrenArray(p: Prop)
  {
    p.isAssignment && p.name == Some("children") && p.value.Some? && p.value.value.ArrayLit?
  }

  /** The route objects listed in the `children` arrays of `props`, in order. */
  function ChildrenIn(props: seq<Prop>): seq<RouteObject>
  {
    if props == [] then []
    else
      var p := props[|props| - 1];
      ChildrenIn(props[..|props| - 1]) + (if IsChildrenArray(p) then p.value.value.elements else [])
  }

  function ChildChain(parent: Located): seq<Ancestor>
  {
    [ArrayAncestor, PropertyAncestor, ObjectAncestor(parent.route)] + parent.chain
  }

  function LocateAll(objs: seq<RouteObject>, chain: seq<Ancestor>): (r: seq<Located>)
    ensures |r| == |objs|
    ensures forall k :: 0 <= k < |r| ==> r[k] == Located(objs[k], chain)
  {
    if objs == [] then [] else LocateAll(objs[..|objs| - 1], chain) + [Located(objs[|objs| - 1], chain)]
  }

  /** `getChildrenArray`: the routes one level down, each with its extended chain. */
  function ChildrenArray(routes: seq<Located>): seq<Located>
  {
    if routes == [] then []
    else
      var last := routes[|routes| - 1];
      ChildrenArray(routes[..|routes| - 1]) + LocateAll(ChildrenIn(last.route.props), ChildChain(last))
  }

  /** The routes of the exported array, with the chain array, export assignment, source file. */
  function TopLevel(elements: seq<RouteObject>): seq<Located>
  {
    LocateAll(elements, [ArrayAncestor, ExportAncestor, SourceFileAncestor])
  }

  // Nesting height, the measure on which the level-by-level walks terminate.

  function Max(a: nat, b: nat): nat
  {
    if a < b then b else a
  }

  function Height(r: RouteObject): nat
    decreases r
  {
    1 + PropsHeight(r.props)
  }

  function PropsHeight(ps: seq<Prop>): nat
    decreases ps
  {
    if ps == [] then 0 else Max(PropsHeight(ps[..|ps| - 1]), PropHeight(ps[|ps| - 1]))
  }

  function PropHeight(p: Prop): nat
    decreases p
  {
    if p.value.Some? && p.value.value.ArrayLit? then ListHeight(p.value.value.elements) else 0
  }

  function ListHeight(rs: seq<RouteObject>): nat
    decreases rs
  {
    if rs == [] then 0 else Max(ListHeight(rs[..|rs| - 1]), Height(rs[|rs| - 1]))
  }

  function MaxHeight(routes: seq<Located>): nat
  {
    if routes == [] then 0 else Max(MaxHeight(routes[..|routes| - 1]), Height(routes[|routes| - 1].route))
  }

  lemma {:induction false} ListHeightBound(rs: seq<RouteObject>, k: nat)
    requires k < |rs|
    ensures Height(rs[k]) <= ListHeight(rs)
  {
    if k < |rs| - 1 {
      assert rs[..|rs| - 1][k] == rs[k];
      ListHeightBound(rs[..|rs| - 1], k);
    }
  }

  lemma {:induction false} ChildrenInLower(props: seq<Prop>, c: RouteObject)
    requires c in ChildrenIn(props)
    ensures Height(c) <= PropsHeight(props)
  {
    var n := |props| - 1;
    var p := props[n];
    if c in ChildrenIn(props[..n]) {
      ChildrenInLower(props[..n], c);
    } else {
      var els := p.value.value.elements;
      var k :| 0 <= k < |els| && els[k] == c;
      ListHeightBound(els, k);
    }
  }

  lemma {:induction false} MaxHeightBound(routes: seq<Located>, k: nat)
    requires k < |routes|
    ensures Height(routes[k].route) <= MaxHeight(routes)
  {
    if k < |routes| - 1 {
      assert routes[..|routes| - 1][k] == routes[k];
      MaxHeightBound(routes[..|routes| - 1], k);
    }
  }

  lemma {:induction false} MaxHeightOfChildren(routes: seq<Located>)
    ensures MaxHeight(ChildrenArray(routes)) < MaxHeight(routes) || routes == []
    ensures routes == [] ==> ChildrenArray(routes) == []
  {
    if routes != [] {
      var n := |routes| - 1;
      var last := routes[n];
      var mine := LocateAll(ChildrenIn(last.route.props), ChildChain(last));
      MaxHeightOfChildren(routes[..n]);
      MaxHeightAppend(ChildrenArray(routes[..n]), mine);
      forall k | 0 <= k < |mine| ensures Height(mine[k].route) < Height(last.route) {
        ChildrenInLower(last.route.props, mine[k].route);
      }
      MaxHeightBelow(mine, Height(last.route));
    }
  }

  lemma {:induction false} MaxHeightAppend(a: seq<Located>, b: seq<Located>)
    ensures MaxHeight(a + b) == Max(MaxHeight(a), MaxHeight(b))
    decreases |b|
  {
    if b == [] {
      assert a + b == a;
    } else {
      var n := |b| - 1;
      assert (a + b)[..|a + b| - 1] == a + b[..n];
      MaxHeightAppend(a, b[..n]);
    }
  }

  lemma {:induction false} MaxHeightBelow(rs: seq<Located>, h: nat)
    requires h >= 1
    requires forall k :: 0 <= k < |rs| ==> Height(rs[k].route) < h
    ensures MaxHeight(rs) < h
  {
    if rs != [] {
      MaxHeightBelow(rs[..|rs| - 1], h);
    }
  }

  /** `n` is on the level `routes` or on a level below it. */
  ghost predicate InLevels(routes: seq<Located>, n: Located)
    decreases MaxHeight(routes)
  {
    n in routes || (routes != [] && (MaxHeightOfChildren(routes); InLevels(ChildrenArray(routes), n)))
  }

  // ---------------------------------------------------------------------
  // Route normalisation
  // ---------------------------------------------------------------------

  /** `s.replace(/\+/g, '')`. */
  function RemovePlus(s: string): (r: string)
    ensures '+' !in r
    ensures '+' !in s ==> r == s
  {
    if s == [] then []
    else
      var rest := RemovePlus(s[1..]);
      assert s == [s[0]] + s[1..];
      if s[0] == '+' then rest else [s[0]] + rest
  }

  predicate IsSegment(part: string)
  {
    part != []
  }

  /** `.filter(n => n !== '')`. */
  function NonEmpty(parts: seq<string>): (r: seq<string>)
    ensures forall k :: 0 <= k < |r| ==> r[k] != [] && r[k] in parts
    ensures forall x :: x in r <==> x in parts && x != []
    ensures r == Filter(parts, IsSegment)
    ensures (forall k :: 0 <= k < |parts| ==> parts[k] != []) ==> r == parts
  {
    if parts == [] then []
    else
      var init := NonEmpty(parts[..|parts| - 1]);
      assert parts == parts[..|parts| - 1] + [parts[|parts| - 1]];
      init + (if parts[|parts| - 1] != [] then [parts[|parts| - 1]] else [])
  }

  /** `route.replace(/\+/g, '').split('/').filter(n => n !== '').join('/')`. */
  function NormalizeRoute(raw: string): string
  {
    Join(NonEmpty(Split(RemovePlus(raw), '/')), "/")
  }

  predicate WellFormedRoute(r: string)
  {
    && '+' !in r
    && (r != [] ==> r[0] != '/' && r[|r| - 1] != '/')
    && forall k :: 0 <= k < |r| - 1 ==> !(r[k] == '/' && r[k + 1] == '/')
  }

  /** Joining non-empty slash-free parts with `/` gives a well-formed route. */
  lemma {:induction false} JoinWellFormed(parts: seq<string>)
    requires forall k :: 0 <= k < |parts| ==> parts[k] != [] && '/' !in parts[k] && '+' !in parts[k]
    ensures WellFormedRoute(Join(parts, "/"))
    ensures parts != [] ==> Join(parts, "/") != []
  {
    if |parts| == 1 {
      assert parts[0][0] in parts[0] && parts[0][|parts[0]| - 1] in parts[0];
      forall k | 0 <= k < |parts[0]| - 1 ensures parts[0][k] != '/' {
        assert parts[0][k] in parts[0];
      }
    } else if |parts| > 1 {
      var head := parts[0];
      JoinWellFormed(parts[1..]);
      var rest := Join(parts[1..], "/");
      var r := Join(parts, "/");
      assert r == head + "/" + rest;
      assert head[0] in head && head[|head| - 1] in head;
      assert r[0] == head[0];
      assert r[|r| - 1] == rest[|rest| - 1];
      forall k | 0 <= k < |r| - 1 ensures !(r[k] == '/' && r[k + 1] == '/') {
        if k < |head| {
          assert r[k] == head[k];
          assert r[k] in head;
        } else if k == |head| {
          assert r[k + 1] == rest[0];
        } else {
          assert r[k] == rest[k - |head| - 1] && r[k + 1] == rest[k - |head|];
        }
      }
      assert '+' !in r by {
        forall c | c in r ensures c != '+' {
          var k :| 0 <= k < |r| && r[k] == c;
          if k < |head| {
            assert r[k] in head;
          } else if k > |head| {
            assert r[k] == rest[k - |head| - 1];
            assert rest[k - |head| - 1] in rest;
          }
        }
      }
    }
  }

  /**
   * Normalisation removes every `+` and every empty segment: the result has
   * no `+` and no leading, trailing or doubled `/`.
   */
  lemma NormalizeIsWellFormed(raw: string)
    ensures WellFormedRoute(NormalizeRoute(raw))
  {
    NormalPartsClean(raw);
    JoinWellFormed(NonEmpty(Split(RemovePlus(raw), '/')));
  }

  predicate CleanSegments(parts: seq<string>)
  {
    forall k :: 0 <= k < |parts| ==> parts[k] != [] && '/' !in parts[k] && '+' !in parts[k]
  }

  /** The segments a normalised route is joined from are non-empty and hold no `/` or `+`. */
  lemma NormalPartsClean(raw: string)
    ensures CleanSegments(NonEmpty(Split(RemovePlus(raw), '/')))
  {
    var parts := NonEmpty(Split(RemovePlus(raw), '/'));
    forall k | 0 <= k < |parts| ensures parts[k] != [] && '/' !in parts[k] && '+' !in parts[k] {
      var s := Split(RemovePlus(raw), '/');
      var j :| 0 <= j < |s| && s[j] == parts[k];
      SplitPartsFree(RemovePlus(raw), '/', '+', j);
    }
  }

  /** Each part of a split is a substring, so a character absent from the text is absent from the parts. */
  lemma {:induction false} SplitPartsFree(s: string, c: char, d: char, j: nat)
    requires d !in s
    requires j < |Split(s, c)|
    ensures d !in Split(s, c)[j]
  {
    if s != [] {
      assert d !in s[1..] by {
        forall x | x in s[1..] ensures x != d { assert x in s; }
      }
      var rest := Split(s[1..], c);
      if s[0] == c {
        if j > 0 {
          SplitPartsFree(s[1..], c, d, j - 1);
        }
      } else {
        assert s[0] in s;
        if j == 0 {
          SplitPartsFree(s[1..], c, d, 0);
        } else {
          SplitPartsFree(s[1..], c, d, j);
        }
      }
    }
  }

  /** Normalising twice changes nothing. */
  lemma NormalizeIdempotent(raw: string)
    ensures NormalizeRoute(NormalizeRoute(raw)) == NormalizeRoute(raw)
  {
    var parts := NonEmpty(Split(RemovePlus(raw), '/'));
    var r := Join(parts, "/");
    NormalPartsClean(raw);
    JoinWellFormed(parts);
    assert RemovePlus(r) == r;
    if parts == [] {
      assert Split(r, '/') == [[]];
    } else {
      SplitJoin(parts, '/');
    }
  }

  /**
   * `split('/')` with the positional-parameter rule: when the second
   * segment contains `:`, it is glued back onto the first.
   */
  function SplitRoute(route: string): (parts: seq<string>)
    ensures |parts| >= 1
  {
    var s := Split(route, '/');
    if |s| > 1 && IndexOf(s[1], ":") != -1 then [s[0] + "/" + s[1]] + s[2..] else s
  }

  lemma SplitRouteGluesParameter(a: string, b: string)
    requires '/' !in a && '/' !in b && ':' in b
    ensures SplitRoute(a + "/" + b) == [a + "/" + b]
  {
    SplitWithoutSeparator(a, '/');
    SplitWithoutSeparator(b, '/');
    SplitJoin([a, b], '/');
    assert Join([a, b], "/") == a + "/" + b;
    var k :| 0 <= k < |b| && b[k] == ':';
    assert b[k..k + 1] == ":";
    IndexFromFinds(b, ":", 0, k);
  }

  /**
   * Whatever follows: a second segment holding `:` is glued onto the
   * first, and the later segments stay as they are (`a/:id/c` gives
   * `a/:id` and `c`).
   */
  lemma SplitRouteGluesSecondSegment(a: string, b: string, rest: seq<string>)
    requires '/' !in a && '/' !in b && ':' in b
    requires forall k :: 0 <= k < |rest| ==> '/' !in rest[k]
    ensures SplitRoute(Join([a, b] + rest, "/")) == [a + "/" + b] + rest
  {
    var parts := [a, b] + rest;
    NoSlashInParts(a, b, rest);
    SplitOfJoinedParts(parts);
    ColonFound(b);
    var s := Split(Join(parts, "/"), '/');
    assert s == parts;
    assert |s| > 1 && s[0] == a && s[1] == b && s[2..] == rest;
  }

  lemma SplitOfJoinedParts(parts: seq<string>)
    requires |parts| >= 1 && forall k :: 0 <= k < |parts| ==> '/' !in parts[k]
    ensures Split(Join(parts, "/"), '/') == parts
  {
    SplitJoin(parts, '/');
  }

  lemma NoSlashInParts(a: string, b: string, rest: seq<string>)
    requires '/' !in a && '/' !in b
    requires forall k :: 0 <= k < |rest| ==> '/' !in rest[k]
    ensures forall k :: 0 <= k < |[a, b] + rest| ==> '/' !in ([a, b] + rest)[k]
  {
    var parts := [a, b] + rest;
    forall k | 0 <= k < |parts| ensures '/' !in parts[k] {
      if k >= 2 { assert parts[k] == rest[k - 2]; }
    }
  }

  lemma ColonFound(b: string)
    requires ':' in b
    ensures IndexOf(b, ":") != -1
  {
    var k :| 0 <= k < |b| && b[k] == ':';
    assert b[k..k + 1] == ":";
    IndexFromFinds(b, ":", 0, k);
  }

  /** The example of a positional parameter followed by a segment. */
  lemma SplitRouteExample()
    ensures SplitRoute("a/:id/c") == ["a/:id", "c"]
  {
    var parts := ["a", ":id", "c"];
    assert ["a", ":id"] + ["c"] == parts;
    assert parts[1..] == [":id", "c"] && parts[1..][1..] == ["c"];
    assert Join(parts, "/") == "a" + "/" + (":id" + "/" + "c");
    ExampleParameterTexts();
    SplitRouteGluesSecondSegment("a", ":id", ["c"]);
  }

  lemma ExampleParameterTexts()
    ensures "a" + "/" + (":id" + "/" + "c") == "a/:id/c" && "a" + "/" + ":id" == "a/:id"
  {
  }

  /** `indexOf` finds an occurrence at or after `from`. */
  lemma {:induction false} IndexFromFinds(s: string, t: string, from: nat, k: nat)
    requires from <= k && k + |t| <= |s| && s[k..k + |t|] == t
    ensures IndexFrom(s, t, from) != -1
    decreases k - from
  {
    if s[from..from + |t|] != t {
      IndexFromFinds(s, t, from + 1, k);
    }
  }

  // ---------------------------------------------------------------------
  // pathExists
  // ---------------------------------------------------------------------

  /** One step of the ancestor walk: an object ancestor with a truthy `path` is prefixed. */
  function PrefixParent(a: Ancestor, path: string): string
  {
    if a.ObjectAncestor? then
      var p := GetValueForKey(a.obj, "path");
      if p.Some? && p.value != [] then p.value + "/" + path else path
    else path
  }

  /** The full route of a route whose own path is `path`, rebuilt up the ancestor chain. */
  function ChainPath(chain: seq<Ancestor>, path: string): string
  {
    if chain == [] then path else PrefixParent(chain[|chain| - 1], ChainPath(chain[..|chain| - 1], path))
  }

  /** The records of this level with the wanted path, component and full route. */
  function Repeated(routes: seq<Located>, seg: string, component: string, fullRoute: string): (r: seq<Located>)
    ensures forall k :: 0 <= k < |r| ==>
              (r[k] in routes
               && GetValueForKey(r[k].route, "path") == Some(seg)
               && GetValueForKey(r[k].route, "component") == Some(component)
               && ChainPath(r[k].chain, seg) == fullRoute)
  {
    if routes == [] then []
    else
      var n := routes[|routes| - 1];
      Repeated(routes[..|routes| - 1], seg, component, fullRoute)
      + (if GetValueForKey(n.route, "path") == Some(seg) && GetValueForKey(n.route, "component") == Some(component)
            && ChainPath(n.chain, seg) == fullRoute
         then [n] else [])
  }

  lemma {:induction false} RepeatedComplete(routes: seq<Located>, seg: string, component: string,
                                            fullRoute: string, n: Located)
    requires n in routes
    requires GetValueForKey(n.route, "path") == Some(seg)
    requires GetValueForKey(n.route, "component") == Some(component)
    requires ChainPath(n.chain, seg) == fullRoute
    ensures Repeated(routes, seg, component, fullRoute) != []
  {
    var last := |routes| - 1;
    if n != routes[last] {
      assert routes == routes[..last] + [routes[last]];
      RepeatedComplete(routes[..last], seg, component, fullRoute, n);
    }
  }

  /**
   * What `pathExists` answers. The walk consumes the first segment of the
   * route when a route of this level has it as its path. In the source the
   * flag that decides this is overwritten by every sibling in turn, so only
   * the last sibling of the level counts (`anySibling == false`); the
   * corrected walk consumes it when any sibling matches (`anySibling == true`).
   */
  function SearchPath(anySibling: bool, routes: seq<Located>, route: string, component: string,
                      fullRoute: string): bool
    decreases MaxHeight(routes)
  {
    if routes == [] then false
    else
      var full := if fullRoute != [] then fullRoute else route;
      var split := SplitRoute(route);
      var sameRoute := if anySibling then WithPath(routes, split[0]) != []
                       else GetValueForKey(routes[|routes| - 1].route, "path") == Some(split[0]);
      var next := if sameRoute then Join(split[1..], "/") else route;
      if Repeated(routes, split[0], component, full) != [] then true
      else
        MaxHeightOfChildren(routes);
        SearchPath(anySibling, ChildrenArray(routes), next, component, full)
  }

  /** `pathExists` as written. */
  function PathExistsSpec(routes: seq<Located>, route: string, component: string, fullRoute: string): bool
  {
    SearchPath(false, routes, route, component, fullRoute)
  }

  /** `pathExists` with the segment consumed when any sibling matches it. */
  function CorrectedPathExistsSpec(routes: seq<Located>, route: string, component: string,
                                   fullRoute: string): bool
  {
    SearchPath(true, routes, route, component, fullRoute)
  }

  /** The full route of `n` is rebuilt by walking its ancestors, nearest first. */
  method RebuildPath(n: Located, currentRoute: string) returns (path: string)
    ensures path == ChainPath(n.chain, currentRoute)
  {
    path := currentRoute;
    var i := 0;
    while i < |n.chain|
      invariant 0 <= i <= |n.chain|
      invariant path == ChainPath(n.chain[..i], currentRoute)
    {
      assert n.chain[..i + 1][..i] == n.chain[..i];
      path := PrefixParent(n.chain[i], path);
      i := i + 1;
    }
    assert n.chain[..i] == n.chain;
  }

  /**
   * The `filter` of `pathExists`, with the `sameRoute` flag it sets as a
   * side effect (last sibling) and the flag the corrected walk uses (any sibling).
   */
  method FilterRepeated(routes: seq<Located>, seg: string, component: string, fullRoute: string)
    returns (repeatedRoutes: seq<Located>, sameRoute: bool, anySameRoute: bool)
    requires routes != []
    ensures repeatedRoutes == Repeated(routes, seg, component, fullRoute)
    ensures sameRoute == (GetValueForKey(routes[|routes| - 1].route, "path") == Some(seg))
    ensures anySameRoute == (WithPath(routes, seg) != [])
  {
    repeatedRoutes := [];
    sameRoute := false;
    anySameRoute := false;
    var i := 0;
    while i < |routes|
      invariant 0 <= i <= |routes|
      invariant repeatedRoutes == Repeated(routes[..i], seg, component, fullRoute)
      invariant i > 0 ==> sameRoute == (GetValueForKey(routes[i - 1].route, "path") == Some(seg))
      invariant anySameRoute == (WithPath(routes[..i], seg) != [])
    {
      var n := routes[i];
      assert routes[..i + 1][..i] == routes[..i];
      var currentRoute := GetValueForKey(n.route, "path");
      var sameComponent := GetValueForKey(n.route, "component") == Some(component);
      sameRoute := currentRoute == Some(seg);
      anySameRoute := anySameRoute || sameRoute;
      if sameRoute && sameComponent {
        var path := RebuildPath(n, currentRoute.value);
        if path == fullRoute {
          repeatedRoutes := repeatedRoutes + [n];
        }
      }
      i := i + 1;
    }
    assert routes[..i] == routes;
  }

  /** `pathExists`: level by level, whether the route with this component is already in the table. */
  method PathExists(routes: seq<Located>, route: string, component: string, fullRoute: string)
    returns (found: bool)
    ensures found == PathExistsSpec(routes, route, component, fullRoute)
    decreases MaxHeight(routes)
  {
    if |routes| == 0 {
      return false;
    }
    var full := if fullRoute != [] then fullRoute else route;
    var splitRoute := SplitRoute(route);
    var repeatedRoutes, sameRoute, _ := FilterRepeated(routes, splitRoute[0], component, full);
    var next := route;
    if sameRoute {
      splitRoute := splitRoute[1..];
      next := Join(splitRoute, "/");
    }
    if |repeatedRoutes| != 0 {
      return true;
    }
    MaxHeightOfChildren(routes);
    found := PathExists(ChildrenArray(routes), next, component, full);
  }

  /** The corrected `pathExists`, which the route insertion uses. */
  method CorrectedPathExists(routes: seq<Located>, route: string, component: string, fullRoute: string)
    returns (found: bool)
    ensures found == CorrectedPathExistsSpec(routes, route, component, fullRoute)
    decreases MaxHeight(routes)
  {
    if |routes| == 0 {
      return false;
    }
    var full := if fullRoute != [] then fullRoute else route;
    var splitRoute := SplitRoute(route);
    var repeatedRoutes, _, sameRoute := FilterRepeated(routes, splitRoute[0], component, full);
    var next := route;
    if sameRoute {
      splitRoute := splitRoute[1..];
      next := Join(splitRoute, "/");
    }
    if |repeatedRoutes| != 0 {
      return true;
    }
    MaxHeightOfChildren(routes);
    found := CorrectedPathExists(ChildrenArray(routes), next, component, full);
  }

  /** An empty level holds no path. */
  lemma PathExistsOnEmpty(anySibling: bool, route: string, component: string, fullRoute: string)
    ensures !SearchPath(anySibling, [], route, component, fullRoute)
  {
  }

  /**
   * A reported duplicate is real, for both walks: some record on this level
   * or below has the component and a path whose rebuilt full route is the
   * one sought.
   */
  lemma {:induction false} PathExistsSound(anySibling: bool, routes: seq<Located>, route: string,
                                           component: string, fullRoute: string)
    requires SearchPath(anySibling, routes, route, component, fullRoute)
    ensures exists n: Located, seg: string :: InLevels(routes, n)
              && GetValueForKey(n.route, "path") == Some(seg)
              && GetValueForKey(n.route, "component") == Some(component)
              && ChainPath(n.chain, seg) == (if fullRoute != [] then fullRoute else route)
    decreases MaxHeight(routes)
  {
    var full := if fullRoute != [] then fullRoute else route;
    var split := SplitRoute(route);
    var rep := Repeated(routes, split[0], component, full);
    if rep != [] {
      var n := rep[0];
      assert InLevels(routes, n);
    } else {
      var sameRoute := if anySibling then WithPath(routes, split[0]) != []
                       else GetValueForKey(routes[|routes| - 1].route, "path") == Some(split[0]);
      var next := if sameRoute then Join(split[1..], "/") else route;
      MaxHeightOfChildren(routes);
      PathExistsSound(anySibling, ChildrenArray(routes), next, component, full);
      var n: Located, seg: string :| InLevels(ChildrenArray(routes), n)
              && GetValueForKey(n.route, "path") == Some(seg)
              && GetValueForKey(n.route, "component") == Some(component)
              && ChainPath(n.chain, seg) == (if full != [] then full else next);
      if full == [] {
        assert route == [];
        assert Split([], '/') == [[]];
        assert Join([], "/") == [];
      }
      assert InLevels(routes, n);
    }
  }

  lemma {:induction false} ChildInChildrenArray(routes: seq<Located>, k: nat, c: RouteObject)
    requires k < |routes| && c in ChildrenIn(routes[k].route.props)
    ensures Located(c, ChildChain(routes[k])) in ChildrenArray(routes)
  {
    var n := |routes| - 1;
    var mine := LocateAll(ChildrenIn(routes[n].route.props), ChildChain(routes[n]));
    if k < n {
      assert routes[..n][k] == routes[k];
      ChildInChildrenArray(routes[..n], k, c);
    } else {
      var j :| 0 <= j < |ChildrenIn(routes[n].route.props)| && ChildrenIn(routes[n].route.props)[j] == c;
      assert mine[j] == Located(c, ChildChain(routes[n]));
    }
  }

  lemma IndexOfAbsent(s: string, c: char)
    requires c !in s
    ensures IndexOf(s, [c]) == -1
  {
    IndexFromAbsent(s, c, 0);
  }

  lemma {:induction false} IndexFromAbsent(s: string, c: char, from: nat)
    requires c !in s
    ensures IndexFrom(s, [c], from) == -1
    decreases |s| - from
  {
    if from + 1 <= |s| {
      assert s[from..from + 1] != [c] by {
        assert s[from..from + 1][0] == s[from];
        assert s[from] in s;
      }
      IndexFromAbsent(s, c, from + 1);
    }
  }

  lemma SplitTwoSegments(s1: string, s2: string)
    requires '/' !in s1 && '/' !in s2 && ':' !in s2
    ensures SplitRoute(s1 + "/" + s2) == [s1, s2]
  {
    SplitJoin([s1, s2], '/');
    assert Join([s1, s2], "/") == s1 + "/" + s2;
    IndexOfAbsent(s2, ':');
  }

  /** The top-level chain adds nothing to a route's path. */
  lemma TopLevelChainPath(path: string)
    ensures ChainPath([ArrayAncestor, ExportAncestor, SourceFileAncestor], path) == path
  {
    var c1 := [ArrayAncestor];
    var c2 := [ArrayAncestor, ExportAncestor];
    var c3 := [ArrayAncestor, ExportAncestor, SourceFileAncestor];
    assert c1[..0] == [] && c2[..1] == c1 && c3[..2] == c2;
    assert ChainPath(c1, path) == path;
    assert ChainPath(c2, path) == path;
  }

  /** The walk up a chain goes through its near part first, then its far part. */
  lemma {:induction false} ChainPathAppend(near: seq<Ancestor>, far: seq<Ancestor>, path: string)
    ensures ChainPath(near + far, path) == ChainPath(far, ChainPath(near, path))
    decreases |far|
  {
    if far == [] {
      assert near + far == near;
    } else {
      var n := |far| - 1;
      assert (near + far)[..|near + far| - 1] == near + far[..n];
      ChainPathAppend(near, far[..n], path);
    }
  }

  /** Under a parent whose path is `pp`, a child's path is prefixed by `pp/`, then by the parent's ancestors. */
  lemma ChainPathOfChild(parent: Located, pp: string, path: string)
    requires GetValueForKey(parent.route, "path") == Some(pp) && pp != []
    ensures ChainPath(ChildChain(parent), path) == ChainPath(parent.chain, pp + "/" + path)
  {
    var near := [ArrayAncestor, PropertyAncestor, ObjectAncestor(parent.route)];
    ChainPathAppend(near, parent.chain, path);
    assert near[..2] == [ArrayAncestor, PropertyAncestor] && near[..2][..1] == [ArrayAncestor];
    assert [ArrayAncestor][..0] == [];
    assert ChainPath([ArrayAncestor], path) == path;
    assert ChainPath(near[..2], path) == path;
  }

  /**
   * A line of routes from the top level down, each one a child of the one
   * before it, with the paths `segs`.
   */
  ghost predicate Descent(line: seq<Located>, segs: seq<string>)
  {
    && |line| == |segs| >= 1
    && (forall j :: 0 <= j < |line| ==> GetValueForKey(line[j].route, "path") == Some(segs[j]))
    && (forall j :: 0 <= j < |segs| ==> segs[j] != [] && '/' !in segs[j] && ':' !in segs[j])
    && (forall j :: 1 <= j < |line| ==>
          line[j].route in ChildrenIn(line[j - 1].route.props) && line[j].chain == ChildChain(line[j - 1]))
  }

  /** The full route of the last route of a line from the top level is its paths joined by `/`. */
  lemma {:induction false} DescentChainPath(line: seq<Located>, segs: seq<string>, path: string)
    requires Descent(line, segs)
    requires line[0].chain == [ArrayAncestor, ExportAncestor, SourceFileAncestor]
    ensures ChainPath(line[|line| - 1].chain, path) == Join(segs[..|line| - 1] + [path], "/")
    decreases |line|
  {
    var m := |line| - 1;
    if m == 0 {
      TopLevelChainPath(path);
      assert segs[..0] + [path] == [path];
    } else {
      assert Descent(line[..m], segs[..m]);
      ChainPathOfChild(line[m - 1], segs[m - 1], path);
      DescentChainPath(line[..m], segs[..m], segs[m - 1] + "/" + path);
      assert segs[..m][..m - 1] == segs[..m - 1];
      JoinLastSplit(segs[..m - 1], segs[m - 1], path);
      assert segs[..m - 1] + [segs[m - 1], path] == segs[..m] + [path];
    }
  }

  /** Joining with the last part split at `/`. */
  lemma {:induction false} JoinLastSplit(parts: seq<string>, a: string, path: string)
    ensures Join(parts + [a + "/" + path], "/") == Join(parts + [a, path], "/")
  {
    if parts != [] {
      assert (parts + [a + "/" + path])[1..] == parts[1..] + [a + "/" + path];
      assert (parts + [a, path])[1..] == parts[1..] + [a, path];
      JoinLastSplit(parts[1..], a, path);
    } else {
      assert [a, path][1..] == [path];
    }
  }

  /** Joined clean segments are split back into the same segments. */
  lemma SplitRouteOfSegments(segs: seq<string>)
    requires |segs| >= 1
    requires forall j :: 0 <= j < |segs| ==> '/' !in segs[j] && ':' !in segs[j]
    ensures SplitRoute(Join(segs, "/")) == segs
  {
    SplitJoin(segs, '/');
    if |segs| > 1 {
      IndexOfAbsent(segs[1], ':');
    }
  }

  /** One step of the corrected walk: the line's head is on this level and consumes its segment. */
  lemma {:induction false} CorrectedWalkFollowsLine(routes: seq<Located>, line: seq<Located>, segs: seq<string>,
                                                    component: string, fullRoute: string)
    requires Descent(line, segs) && line[0] in routes
    requires GetValueForKey(line[|line| - 1].route, "component") == Some(component)
    requires ChainPath(line[|line| - 1].chain, segs[|segs| - 1])
          == (if fullRoute != [] then fullRoute else Join(segs, "/"))
    ensures SearchPath(true, routes, Join(segs, "/"), component, fullRoute)
    decreases |line|
  {
    var route := Join(segs, "/");
    if |line| == 1 {
      SplitRouteOfSegments(segs);
      SearchPathFindsOnThisLevel(true, routes, route, component, fullRoute, line[0]);
    } else {
      var full := if fullRoute != [] then fullRoute else route;
      JoinConsNonEmpty(segs);
      var k :| 0 <= k < |routes| && routes[k] == line[0];
      WithPathComplete(routes, segs[0], k);
      ChildInChildrenArray(routes, k, line[1].route);
      DescentTail(line, segs);
      MaxHeightOfChildren(routes);
      CorrectedWalkFollowsLine(ChildrenArray(routes), line[1..], segs[1..], component, full);
      CorrectedWalkStep(routes, segs, component, fullRoute);
    }
  }

  /** A line without its head is a line from the next level down. */
  lemma DescentTail(line: seq<Located>, segs: seq<string>)
    requires Descent(line, segs) && |line| > 1
    ensures Descent(line[1..], segs[1..])
  {
  }

  /**
   * When a sibling has the first segment, the corrected walk shifts it off
   * and goes on one level down with the rest of the route.
   */
  lemma CorrectedWalkStep(routes: seq<Located>, segs: seq<string>, component: string, fullRoute: string)
    requires |segs| > 1 && forall j :: 0 <= j < |segs| ==> '/' !in segs[j] && ':' !in segs[j]
    requires WithPath(routes, segs[0]) != []
    requires SearchPath(true, ChildrenArray(routes), Join(segs[1..], "/"), component,
                        if fullRoute != [] then fullRoute else Join(segs, "/"))
    ensures SearchPath(true, routes, Join(segs, "/"), component, fullRoute)
  {
    SplitRouteOfSegments(segs);
    MaxHeightOfChildren(routes);
  }

  /** The first part of a join is its prefix, so a join whose first part is non-empty is non-empty. */
  lemma JoinConsNonEmpty(segs: seq<string>)
    requires |segs| >= 1 && segs[0] != []
    ensures Join(segs, "/") != []
  {
    assert |segs| == 1 || Join(segs, "/") == segs[0] + "/" + Join(segs[1..], "/");
  }

  /**
   * The corrected walk finds a duplicate at any depth: a record with the
   * component, at the end of a line of routes from the top level whose
   * paths are `segs`, is a duplicate of `segs` joined by `/`, wherever each
   * route of the line sits among its siblings.
   */
  lemma CorrectedFindsAtDepth(elements: seq<RouteObject>, line: seq<Located>, segs: seq<string>,
                              component: string)
    requires Descent(line, segs) && line[0] in TopLevel(elements)
    requires GetValueForKey(line[|line| - 1].route, "component") == Some(component)
    ensures CorrectedPathExistsSpec(TopLevel(elements), Join(segs, "/"), component, [])
  {
    var m := |line| - 1;
    assert line[0].chain == [ArrayAncestor, ExportAncestor, SourceFileAncestor];
    DescentChainPath(line, segs, segs[m]);
    assert segs[..m] + [segs[m]] == segs;
    CorrectedWalkFollowsLine(TopLevel(elements), line, segs, component, []);
  }

  /** Either walk answers yes as soon as this level holds the record sought. */
  lemma SearchPathFindsOnThisLevel(anySibling: bool, routes: seq<Located>, route: string, component: string,
                                   fullRoute: string, n: Located)
    requires n in routes
    requires GetValueForKey(n.route, "path") == Some(SplitRoute(route)[0])
    requires GetValueForKey(n.route, "component") == Some(component)
    requires ChainPath(n.chain, SplitRoute(route)[0]) == (if fullRoute != [] then fullRoute else route)
    ensures SearchPath(anySibling, routes, route, component, fullRoute)
  {
    RepeatedComplete(routes, SplitRoute(route)[0], component,
                     if fullRoute != [] then fullRoute else route, n);
  }

  lemma {:induction false} WithPathComplete(routes: seq<Located>, seg: string, k: nat)
    requires k < |routes| && GetValueForKey(routes[k].route, "path") == Some(seg)
    ensures routes[k] in WithPath(routes, seg)
  {
    var n := |routes| - 1;
    if k < n {
      assert routes[..n][k] == routes[k];
      WithPathComplete(routes[..n], seg, k);
    }
  }

  lemma {:induction false} ChildrenInNone(props: seq<Prop>)
    requires forall k :: 0 <= k < |props| ==> !IsChildrenArray(props[k])
    ensures ChildrenIn(props) == []
  {
    if props != [] {
      ChildrenInNone(props[..|props| - 1]);
    }
  }

  function PathProp(v: string): Prop
  {
    Prop(true, Some("path"), Some(Leaf(Some(v))))
  }

  function ComponentProp(v: string): Prop
  {
    Prop(true, Some("component"), Some(Leaf(Some(v))))
  }

  function ExampleChild(): RouteObject
  {
    RouteObject([PathProp("b"), ComponentProp("X")], 40, 70)
  }

  /** `[{ path: 'a', component: A, children: [{ path: 'b', component: X }] }, { path: 'z', component: Z }]`. */
  function NestedExample(): seq<RouteObject>
  {
    var a := RouteObject([PathProp("a"), ComponentProp("A"),
                          Prop(true, Some("children"), Some(ArrayLit([ExampleChild()], 39)))], 10, 80);
    var z := RouteObject([PathProp("z"), ComponentProp("Z")], 90, 120);
    [a, z]
  }

  /** The example route `a/b`, as a concatenation and as a join. */
  lemma ExampleRouteText()
    ensures "a" + "/" + "b" == "a/b" && Join(["a", "b"], "/") == "a/b"
  {
    assert ["a", "b"][1..] == ["b"];
  }

  lemma {:induction false} RepeatedNone(routes: seq<Located>, seg: string, component: string, fullRoute: string)
    requires forall k :: 0 <= k < |routes| ==>
               !(GetValueForKey(routes[k].route, "path") == Some(seg)
                 && GetValueForKey(routes[k].route, "component") == Some(component))
    ensures Repeated(routes, seg, component, fullRoute) == []
  {
    if routes != [] {
      RepeatedNone(routes[..|routes| - 1], seg, component, fullRoute);
    }
  }

  /** The levels of the example: the child `b` alone one level down, nothing below it. */
  lemma NestedExampleLevels()
    ensures ChildrenArray(TopLevel(NestedExample()))
         == [Located(ExampleChild(), ChildChain(TopLevel(NestedExample())[0]))]
    ensures ChildrenArray(ChildrenArray(TopLevel(NestedExample()))) == []
  {
    NestedExampleFirstLevel();
    var below := ChildrenArray(TopLevel(NestedExample()));
    ChildrenInNone(ExampleChild().props);
    assert below[..0] == [];
  }

  lemma NestedExampleFirstLevel()
    ensures ChildrenArray(TopLevel(NestedExample()))
         == [Located(ExampleChild(), ChildChain(TopLevel(NestedExample())[0]))]
  {
    var els := NestedExample();
    var routes := TopLevel(els);
    var b := ExampleChild();
    assert ChildrenIn(els[0].props) == [b] by {
      ChildrenInNone(els[0].props[..2]);
    }
    ChildrenInNone(els[1].props);
    assert routes[0].route == els[0] && routes[1].route == els[1];
    assert LocateAll([b], ChildChain(routes[0])) == [Located(b, ChildChain(routes[0]))];
    assert ChildrenArray(routes[..1]) == [Located(b, ChildChain(routes[0]))] by {
      assert routes[..1][..0] == [];
    }
  }

  /**
   * As written, `pathExists` misses the nested duplicate `a/b` of
   * component `X`, because the parent `a` is not the last route of its level.
   */
  lemma PathExistsMissesNestedDuplicate()
    ensures !PathExistsSpec(TopLevel(NestedExample()), "a/b", "X", [])
  {
    var routes := TopLevel(NestedExample());
    NestedExampleLevels();
    var below := ChildrenArray(routes);
    assert |routes| == 2 && |below| == 1;
    assert GetValueForKey(routes[1].route, "path") == Some("z");
    assert GetValueForKey(below[0].route, "path") == Some("b");
    ExampleRouteText();
    RepeatedNone(routes, "a", "X", "a/b");
    RepeatedNone(below, "a", "X", "a/b");
    TwoLevelMiss(routes, "a", "b", "X");
  }

  /** The walk as written over two levels whose last routes do not carry the first segment. */
  lemma TwoLevelMiss(routes: seq<Located>, s1: string, s2: string, component: string)
    requires '/' !in s1 && '/' !in s2 && ':' !in s2
    requires routes != [] && GetValueForKey(routes[|routes| - 1].route, "path") != Some(s1)
    requires Repeated(routes, s1, component, s1 + "/" + s2) == []
    requires var below := ChildrenArray(routes);
             below != [] && GetValueForKey(below[|below| - 1].route, "path") != Some(s1)
             && Repeated(below, s1, component, s1 + "/" + s2) == [] && ChildrenArray(below) == []
    ensures !PathExistsSpec(routes, s1 + "/" + s2, component, [])
  {
    SplitTwoSegments(s1, s2);
    var below := ChildrenArray(routes);
    MaxHeightOfChildren(routes);
    MaxHeightOfChildren(below);
    assert !SearchPath(false, below, s1 + "/" + s2, component, s1 + "/" + s2);
  }

  /**
   * `getParent` finds no parent for `a/b` in the example: both segments are
   * consumed, and a fully matched route has no parent.
   */
  lemma NestedExampleHasNoParent()
    ensures GetParentSpec(TopLevel(NestedExample()), "a/b", None) == None
  {
    var routes := TopLevel(NestedExample());
    NestedExampleLevels();
    WithPathComplete(routes, "a", 0);
    ExampleRouteText();
    FullyMatchedHasNoParent(routes, "a", "b", Located(ExampleChild(), ChildChain(routes[0])));
  }

  /** A two-segment route matched on both levels, the second by an only child, has no parent. */
  lemma FullyMatchedHasNoParent(routes: seq<Located>, s1: string, s2: string, n: Located)
    requires '/' !in s1 && '/' !in s2 && ':' !in s2 && s2 != []
    requires WithPath(routes, s1) != []
    requires ChildrenArray(routes) == [n] && ChildrenArray([n]) == []
    requires GetValueForKey(n.route, "path") == Some(s2)
    ensures GetParentSpec(routes, s1 + "/" + s2, None) == None
  {
    FirstSegmentConsumed(routes, s1, s2, None);
    LastSegmentConsumed([n], s2, FirstByPosition(WithPath(routes, s1)));
  }

  /** A first segment matched on this level is shifted off, and the first match becomes the parent so far. */
  lemma FirstSegmentConsumed(routes: seq<Located>, s1: string, s2: string, parent: Option<Located>)
    requires '/' !in s1 && '/' !in s2 && ':' !in s2 && s2 != []
    requires WithPath(routes, s1) != []
    ensures GetParentSpec(routes, s1 + "/" + s2, parent)
         == GetParentSpec(ChildrenArray(routes), s2, FirstByPosition(WithPath(routes, s1)))
  {
    SplitTwoSegments(s1, s2);
    assert Join([s1, s2][1..], "/") == s2;
  }

  /** The last segment matched by the only route of a level without children: nothing is left to add to. */
  lemma LastSegmentConsumed(level: seq<Located>, seg: string, parent: Option<Located>)
    requires |level| == 1 && GetValueForKey(level[0].route, "path") == Some(seg) && '/' !in seg
    requires ChildrenArray(level) == []
    ensures GetParentSpec(level, seg, parent) == None
  {
    SplitWithoutSeparator(seg, '/');
    assert WithPath(level, seg) == [level[0]] by {
      assert level[..0] == [];
    }
    assert Join([seg][1..], "/") == [];
    MaxHeightOfChildren(level);
  }

  /** The corrected walk reports that duplicate, which is in the table one level down. */
  lemma CorrectedReportsNestedDuplicate()
    ensures CorrectedPathExistsSpec(TopLevel(NestedExample()), "a/b", "X", [])
  {
    var els := NestedExample();
    assert ChildrenIn(els[0].props) == [ExampleChild()] by {
      ChildrenInNone(els[0].props[..2]);
    }
    var routes := TopLevel(els);
    var line := [routes[0], Located(ExampleChild(), ChildChain(routes[0]))];
    assert GetValueForKey(ExampleChild(), "component") == Some("X");
    assert Descent(line, ["a", "b"]);
    ExampleRouteText();
    CorrectedFindsAtDepth(els, line, ["a", "b"], "X");
  }

  // ---------------------------------------------------------------------
  // getParent
  // ---------------------------------------------------------------------

  function LocatedPos(n: Located): int
  {
    n.route.pos
  }

  /** The routes of this level whose `path` is `seg`, in order. */
  function WithPath(routes: seq<Located>, seg: string): (r: seq<Located>)
    ensures forall k :: 0 <= k < |r| ==> r[k] in routes && GetValueForKey(r[k].route, "path") == Some(seg)
    ensures forall n :: n in r <==> n in routes && GetValueForKey(n.route, "path") == Some(seg)
  {
    if routes == [] then []
    else
      WithPath(routes[..|routes| - 1], seg)
      + (if GetValueForKey(routes[|routes| - 1].route, "path") == Some(seg) then [routes[|routes| - 1]] else [])
  }

  /** `potentialParents.sort((a, b) => a.pos - b.pos).shift()`. */
  function FirstByPosition(rs: seq<Located>): (r: Option<Located>)
    ensures r.None? <==> rs == []
    ensures r.Some? ==> r.value in rs && forall x :: x in rs ==> r.value.route.pos <= x.route.pos
  {
    if rs == [] then None
    else
      SortByFirstIsMin(rs, LocatedPos);
      Some(SortBy(rs, LocatedPos)[0])
  }

  /** What `getParent` returns: the route under whose `children` the new route goes, if any. */
  function GetParentSpec(routes: seq<Located>, route: string, parent: Option<Located>): Option<Located>
    decreases MaxHeight(routes)
  {
    if routes == [] && parent.None? then None
    else if route == [] then None
    else
      var split := SplitRoute(route);
      var potential := WithPath(routes, split[0]);
      var next := if potential != [] then Join(split[1..], "/") else route;
      if next != [] && parent.Some? && potential == [] then parent
      else
        MaxHeightOfChildren(routes);
        GetParentSpec(ChildrenArray(routes), next, FirstByPosition(potential))
  }

  /** `getParent`: matches one level, shifting the matched segment off the split route. */
  method GetParent(routes: seq<Located>, route: string, parent: Option<Located>)
    returns (result: Option<Located>)
    ensures result == GetParentSpec(routes, route, parent)
    decreases MaxHeight(routes)
  {
    if |routes| == 0 && parent.None? {
      return None;
    }
    if |route| == 0 {
      return None;
    }
    var splitRoute := SplitRoute(route);
    var potentialParents := WithPath(routes, splitRoute[0]);
    var current := route;
    if |potentialParents| != 0 {
      splitRoute := splitRoute[1..];
      current := Join(splitRoute, "/");
    }
    MaxHeightOfChildren(routes);
    var newRouteArray := ChildrenArray(routes);
    if current != [] && parent.Some? && |potentialParents| == 0 {
      return parent;
    }
    var nextParent := FirstByPosition(potentialParents);
    result := GetParent(newRouteArray, current, nextParent);
  }

  /** A fully matched route has no parent to add to. */
  lemma GetParentOfEmptyRoute(routes: seq<Located>, parent: Option<Located>)
    ensures GetParentSpec(routes, [], parent).None?
  {
  }

  /** An empty table without a parent so far gives no parent. */
  lemma GetParentOfEmptyTable(route: string)
    ensures GetParentSpec([], route, None).None?
  {
  }

  /**
   * The parent found is the one passed in, or a route on this level or
   * below that carries a `path`.
   */
  lemma {:induction false} GetParentSound(routes: seq<Located>, route: string, parent: Option<Located>)
    requires GetParentSpec(routes, route, parent).Some?
    ensures var p := GetParentSpec(routes, route, parent).value;
            (parent.Some? && p == parent.value)
            || (InLevels(routes, p) && GetValueForKey(p.route, "path").Some?)
    decreases MaxHeight(routes)
  {
    var split := SplitRoute(route);
    var potential := WithPath(routes, split[0]);
    var next := if potential != [] then Join(split[1..], "/") else route;
    if !(next != [] && parent.Some? && potential == []) {
      MaxHeightOfChildren(routes);
      var below := FirstByPosition(potential);
      GetParentSound(ChildrenArray(routes), next, below);
      var p := GetParentSpec(routes, route, parent).value;
      if below.Some? && p == below.value {
        var k :| 0 <= k < |potential| && potential[k] == p;
        assert p in routes;
      } else {
        assert InLevels(routes, p);
      }
    }
  }

  /** Every route one level down is a child of a route of this level, with that route's chain extended. */
  lemma {:induction false} ChildrenArrayMember(routes: seq<Located>, n: Located)
    requires n in ChildrenArray(routes)
    ensures exists k :: 0 <= k < |routes| && n.route in ChildrenIn(routes[k].route.props)
                        && n.chain == ChildChain(routes[k])
  {
    var last := |routes| - 1;
    var mine := LocateAll(ChildrenIn(routes[last].route.props), ChildChain(routes[last]));
    if n in ChildrenArray(routes[..last]) {
      ChildrenArrayMember(routes[..last], n);
      var k :| 0 <= k < last && n.route in ChildrenIn(routes[..last][k].route.props)
               && n.chain == ChildChain(routes[..last][k]);
      assert routes[..last][k] == routes[k];
    } else {
      assert n in mine;
      var j :| 0 <= j < |mine| && mine[j] == n;
      assert n.route in ChildrenIn(routes[last].route.props);
    }
  }

  lemma {:induction false} WithPathNone(routes: seq<Located>, seg: string)
    requires forall n :: n in routes ==> GetValueForKey(n.route, "path") != Some(seg)
    ensures WithPath(routes, seg) == []
  {
    if routes != [] {
      assert routes[|routes| - 1] in routes;
      WithPathNone(routes[..|routes| - 1], seg);
    }
  }

  /**
   * `getParent` on a two-segment route `s1/s2`: the parent is the top-level
   * route with path `s1` that comes first in the file, as long as no route
   * one level down already has the path `s2` (which would consume it too).
   */
  lemma GetParentFindsTopLevelParent(elements: seq<RouteObject>, s1: string, s2: string, r: Located)
    requires s1 != [] && s2 != [] && '/' !in s1 && '/' !in s2 && ':' !in s2
    requires FirstByPosition(WithPath(TopLevel(elements), s1)) == Some(r)
    requires forall e, c :: e in elements && c in ChildrenIn(e.props) ==> GetValueForKey(c, "path") != Some(s2)
    ensures GetParentSpec(TopLevel(elements), s1 + "/" + s2, None) == Some(r)
  {
    var routes := TopLevel(elements);
    var below := ChildrenArray(routes);
    SplitTwoSegments(s1, s2);
    SplitWithoutSeparator(s2, '/');
    assert SplitRoute(s2) == [s2];
    assert Join([s1, s2][1..], "/") == s2;
    forall n | n in below ensures GetValueForKey(n.route, "path") != Some(s2) {
      ChildrenArrayMember(routes, n);
      var k :| 0 <= k < |routes| && n.route in ChildrenIn(routes[k].route.props);
      assert routes[k].route == elements[k];
    }
    WithPathNone(below, s2);
    MaxHeightOfChildren(routes);
    assert GetParentSpec(below, s2, Some(r)) == Some(r);
  }

  // ---------------------------------------------------------------------
  // addChildPath
  // ---------------------------------------------------------------------

  predicate IsObjectOrArray(a: Ancestor)
  {
    a.ObjectAncestor? || a.ArrayAncestor?
  }

  /** How many of `nodes` are object or array literals. */
  function CountLiterals(nodes: seq<Ancestor>): nat
  {
    if nodes == [] then 0
    else CountLiterals(nodes[..|nodes| - 1]) + (if IsObjectOrArray(nodes[|nodes| - 1]) then 1 else 0)
  }

  /**
   * `nestingLevel`: 1, plus one for the parent object and each ancestor
   * that is an object or array literal, except the root (the walk stops at
   * the node that has no parent).
   */
  function NestingLevel(parent: Located): nat
  {
    var nodes := [ObjectAncestor(parent.route)] + parent.chain;
    1 + CountLiterals(nodes[..|parent.chain|])
  }

  /** Chains as the walk of the table builds them: top level, or one `children` array down. */
  predicate RouteChain(chain: seq<Ancestor>)
    decreases |chain|
  {
    chain == [ArrayAncestor, ExportAncestor, SourceFileAncestor]
    || (|chain| > 3 && chain[0] == ArrayAncestor && chain[1] == PropertyAncestor
        && chain[2].ObjectAncestor? && RouteChain(chain[3..]))
  }

  /** The number of route objects above a route. */
  function Depth(chain: seq<Ancestor>): nat
    decreases |chain|
  {
    if |chain| > 3 then 1 + Depth(chain[3..]) else 0
  }

  lemma {:induction false} CountLiteralsAppend(a: seq<Ancestor>, b: seq<Ancestor>)
    ensures CountLiterals(a + b) == CountLiterals(a) + CountLiterals(b)
    decreases |b|
  {
    if b == [] {
      assert a + b == a;
    } else {
      var n := |b| - 1;
      assert (a + b)[..|a + b| - 1] == a + b[..n];
      CountLiteralsAppend(a, b[..n]);
    }
  }

  /** Under a parent `depth` levels down the indentation level is `2 * depth + 3`. */
  lemma {:induction false} NestingLevelOfRouteChain(parent: Located)
    requires RouteChain(parent.chain)
    ensures NestingLevel(parent) == 2 * Depth(parent.chain) + 3
    decreases |parent.chain|
  {
    var chain := parent.chain;
    var self := ObjectAncestor(parent.route);
    if chain == [ArrayAncestor, ExportAncestor, SourceFileAncestor] {
      assert ([self] + chain)[..3] == [self, ArrayAncestor, ExportAncestor];
      OwnObjectAndArray(self, ExportAncestor);
    } else {
      var up := Located(chain[2].obj, chain[3..]);
      NestingLevelOfRouteChain(up);
      var upNodes := [ObjectAncestor(up.route)] + up.chain;
      assert ([self] + chain)[..|chain|] == [self, ArrayAncestor, PropertyAncestor] + upNodes[..|up.chain|];
      CountLiteralsAppend([self, ArrayAncestor, PropertyAncestor], upNodes[..|up.chain|]);
      OwnObjectAndArray(self, PropertyAncestor);
      assert Depth(chain) == 1 + Depth(up.chain);
    }
  }

  /** The route's own object and its array count; the node above them does not. */
  lemma OwnObjectAndArray(self: Ancestor, above: Ancestor)
    requires self.ObjectAncestor? && !IsObjectOrArray(above)
    ensures CountLiterals([self, ArrayAncestor, above]) == 2
  {
    assert [self, ArrayAncestor, above][..2] == [self, ArrayAncestor];
    assert [self, ArrayAncestor][..1] == [self];
    assert [self][..0] == [];
    assert CountLiterals([self]) == 1;
    assert CountLiterals([self, ArrayAncestor]) == 2;
  }

  /** Every route of the table, at every level, carries a chain of that shape. */
  lemma {:induction false} ChildrenArrayKeepsRouteChain(routes: seq<Located>)
    requires forall k :: 0 <= k < |routes| ==> RouteChain(routes[k].chain)
    ensures forall k :: 0 <= k < |ChildrenArray(routes)| ==>
              RouteChain(ChildrenArray(routes)[k].chain)
              && Depth(ChildrenArray(routes)[k].chain) >= 1
  {
    if routes != [] {
      var n := |routes| - 1;
      var last := routes[n];
      ChildrenArrayKeepsRouteChain(routes[..n]);
      var mine := LocateAll(ChildrenIn(last.route.props), ChildChain(last));
      var chain := ChildChain(last);
      assert chain[3..] == last.chain;
      assert RouteChain(chain);
      var all := ChildrenArray(routes);
      assert all == ChildrenArray(routes[..n]) + mine;
      forall k | 0 <= k < |all| ensures RouteChain(all[k].chain) && Depth(all[k].chain) >= 1 {
        if k >= |ChildrenArray(routes[..n])| {
          assert all[k] == mine[k - |ChildrenArray(routes[..n])|];
        }
      }
    }
  }

  lemma TopLevelRouteChain(elements: seq<RouteObject>)
    ensures forall k :: 0 <= k < |TopLevel(elements)| ==>
              RouteChain(TopLevel(elements)[k].chain) && Depth(TopLevel(elements)[k].chain) == 0
  {
  }

  predicate IsChildrenAssignment(p: Prop)
  {
    p.isAssignment && p.name == Some("children")
  }

  /** The `children` property assignments of the parent, in order. */
  function ChildrenProps(props: seq<Prop>): (r: seq<Prop>)
    ensures forall k :: 0 <= k < |r| ==> r[k] in props && r[k].isAssignment && r[k].name == Some("children")
    ensures forall p :: p in r <==> p in props && IsChildrenAssignment(p)
  {
    if props == [] then []
    else
      var p := props[|props| - 1];
      ChildrenProps(props[..|props| - 1]) + (if p.isAssignment && p.name == Some("children") then [p] else [])
  }

  /** `childrenNode` keeps every `children` assignment of the parent, in order. */
  lemma {:induction false} ChildrenPropsInOrder(props: seq<Prop>)
    ensures ChildrenProps(props) == Filter(props, IsChildrenAssignment)
  {
    if props != [] {
      ChildrenPropsInOrder(props[..|props| - 1]);
    }
  }

  /** `childrenNode[0]` is the first `children` assignment of the parent. */
  lemma ChildrenPropsFirst(props: seq<Prop>, j: nat)
    requires j < |props| && IsChildrenAssignment(props[j])
    requires forall i :: 0 <= i < j ==> !IsChildrenAssignment(props[i])
    ensures ChildrenProps(props) != [] && ChildrenProps(props)[0] == props[j]
  {
    ChildrenPropsInOrder(props);
    FilterFirst(props, IsChildrenAssignment, j);
  }

  /** The text of a route record: `{ path: '…', component: … }`, with the optional flags. */
  function RouteRecord(path: string, component: string, isDefault: bool, outlet: string): string
  {
    "{ path: '" + path + "', component: " + component
    + (if isDefault then ", terminal: true" else "")
    + (if outlet != [] then ", outlet: '" + outlet + "'" else "")
    + " }"
  }

  datatype ChildEdit = ChildEdit(newContent: string, pos: int)

  /** `route.substring(route.indexOf(parentRoute) + parentRoute.length + 1)`. */
  function ChildRoute(route: string, parentRoute: string): string
  {
    JsSubstringFrom(route, IndexOf(route, parentRoute) + |parentRoute| + 1)
  }

  /** The parent's path stripped off the front of the route leaves the child path. */
  lemma ChildRouteStripsParent(parentRoute: string, child: string)
    ensures ChildRoute(parentRoute + "/" + child, parentRoute) == child
  {
    var route := parentRoute + "/" + child;
    assert route[0..|parentRoute|] == parentRoute;
    assert IndexFrom(route, parentRoute, 0) == 0;
    assert route[|parentRoute| + 1..] == child;
  }

  /** What `addChildPath` produces for `parent`, whose indentation level is `level`. */
  function ChildEditSpec(parent: Located, component: string, isDefault: bool, outlet: string,
                         route: string, level: nat): Result<ChildEdit>
  {
    var obj := parent.route;
    if |obj.props| == 0 || obj.props[0].value.None? || !obj.props[0].value.value.Leaf?
       || obj.props[0].value.value.text.None?
    then Failure(TypeError("path of the parent route"))
    else
      var parentRoute := obj.props[0].value.value.text.value;
      var content := RouteRecord(ChildRoute(route, parentRoute), component, isDefault, outlet);
      var spaces := Spaces(2 * level);
      var childrenNode := ChildrenProps(obj.props);
      if childrenNode != [] then
        var v := childrenNode[0].value;
        if v.None? || !v.value.ArrayLit? then Failure(TypeError("children array of the parent route"))
        else Success(ChildEdit("\n" + spaces + content + ", ", v.value.listPos))
      else
        Success(ChildEdit(",\n" + JsSubstringFrom(spaces, 2) + "children: [\n" + spaces + content + " "
                          + "\n" + JsSubstringFrom(spaces, 2) + "]\n" + JsSubstringFrom(spaces, 5),
                          obj.closeBracePos))
  }

  /** `addChildPath`: counts the nesting level up the parent chain, then builds the text. */
  method AddChildPath(parent: Located, component: string, isDefault: bool, outlet: string, route: string)
    returns (r: Result<ChildEdit>)
    ensures r == ChildEditSpec(parent, component, isDefault, outlet, route, NestingLevel(parent))
  {
    var nodes := [ObjectAncestor(parent.route)] + parent.chain;
    var nestingLevel := 1;
    var i := 0;
    while i < |parent.chain|
      invariant 0 <= i <= |parent.chain|
      invariant nestingLevel == 1 + CountLiterals(nodes[..i])
    {
      assert nodes[..i + 1][..i] == nodes[..i];
      if IsObjectOrArray(nodes[i]) {
        nestingLevel := nestingLevel + 1;
      }
      i := i + 1;
    }
    r := ChildEditSpec(parent, component, isDefault, outlet, route, nestingLevel);
  }

  /** With a `children` array the record goes first in it, on its own indented line. */
  lemma ChildGoesFirstInExistingArray(parent: Located, component: string, isDefault: bool,
                                      outlet: string, route: string, level: nat, elements: seq<RouteObject>,
                                      listPos: int)
    requires |parent.route.props| > 0 && parent.route.props[0].value == Some(Leaf(Some(SplitRoute(route)[0])))
    requires ChildrenProps(parent.route.props) != []
    requires ChildrenProps(parent.route.props)[0].value == Some(ArrayLit(elements, listPos))
    ensures var e := ChildEditSpec(parent, component, isDefault, outlet, route, level);
            e.Success? && e.value.pos == listPos
            && e.value.newContent == "\n" + Spaces(2 * level)
               + RouteRecord(ChildRoute(route, SplitRoute(route)[0]), component, isDefault, outlet) + ", "
  {
  }

  /** Without one, a whole `children: [...]` property goes just before the parent's close brace. */
  lemma ChildrenArrayIsSynthesised(parent: Located, component: string, isDefault: bool,
                                   outlet: string, route: string, level: nat)
    requires |parent.route.props| > 0 && parent.route.props[0].value.Some?
    requires parent.route.props[0].value.value.Leaf? && parent.route.props[0].value.value.text.Some?
    requires ChildrenProps(parent.route.props) == []
    requires level >= 3
    ensures var e := ChildEditSpec(parent, component, isDefault, outlet, route, level);
            var spaces := Spaces(2 * level);
            var parentRoute := parent.route.props[0].value.value.text.value;
            e.Success? && e.value.pos == parent.route.closeBracePos
            && e.value.newContent == ",\n" + spaces[2..] + "children: [\n" + spaces
               + RouteRecord(ChildRoute(route, parentRoute), component, isDefault, outlet)
               + " \n" + spaces[2..] + "]\n" + spaces[5..]
  {
  }

  /**
   * Under a first-level parent with path `pp`, the route `pp/child` becomes
   * the record `{ path: 'child', … }`, indented by six spaces: first in the
   * parent's `children` array, or in a new `children` property before the
   * parent's close brace.
   */
  lemma ChildEditUnderFirstLevel(parent: Located, pp: string, child: string, component: string,
                                 isDefault: bool, outlet: string)
    requires GetValueForKey(parent.route, "path") == Some(pp)
    ensures var e := ChildEditSpec(parent, component, isDefault, outlet, pp + "/" + child, 3);
            var record := RouteRecord(child, component, isDefault, outlet);
            var children := ChildrenProps(parent.route.props);
            && (children != [] && children[0].value.Some? && children[0].value.value.ArrayLit?
                ==> e == Success(ChildEdit("\n      " + record + ", ", children[0].value.value.listPos)))
            && (children == []
                ==> e == Success(ChildEdit(",\n    children: [\n      " + record + " \n    ]\n ",
                                           parent.route.closeBracePos)))
  {
    ChildRouteStripsParent(pp, child);
    assert parent.route.props[0].value.value.text.value == pp;
    var record := RouteRecord(child, component, isDefault, outlet);
    FirstLevelTexts(record);
  }

  /** The two texts at indentation level 3. */
  lemma FirstLevelTexts(record: string)
    ensures "\n" + Spaces(6) + record + ", " == "\n      " + record + ", "
    ensures ",\n" + JsSubstringFrom(Spaces(6), 2) + "children: [\n" + Spaces(6) + record + " "
            + "\n" + JsSubstringFrom(Spaces(6), 2) + "]\n" + JsSubstringFrom(Spaces(6), 5)
         == ",\n    children: [\n      " + record + " \n    ]\n "
  {
    SixSpaces();
    ChildrenOpening();
    ChildrenClosing();
    Reassociate(",\n", JsSubstringFrom(Spaces(6), 2), "children: [\n", Spaces(6), record,
                " ", "\n", JsSubstringFrom(Spaces(6), 2), "]\n", JsSubstringFrom(Spaces(6), 5));
  }

  /** Six spaces, and what `substring(2)` and `substring(5)` leave of them. */
  lemma SixSpaces()
    ensures Spaces(6) == "      "
    ensures JsSubstringFrom(Spaces(6), 2) == "    " && JsSubstringFrom(Spaces(6), 5) == " "
  {
    assert Spaces(6) == "      ";
  }

  lemma ChildrenOpening()
    ensures ",\n" + "    " + "children: [\n" + "      " == ",\n    children: [\n      "
  {
  }

  lemma ChildrenClosing()
    ensures " " + "\n" + "    " + "]\n" + " " == " \n    ]\n "
  {
  }

  lemma Reassociate(a: string, b: string, c: string, d: string, x: string,
                    e: string, f: string, g: string, h: string, i: string)
    ensures a + b + c + d + x + e + f + g + h + i == (a + b + c + d) + x + (e + f + g + h + i)
  {
  }
}
