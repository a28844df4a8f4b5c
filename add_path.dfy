/**
 * `addPathToRoutes` of route-utils.ts: the planned edits that add a route
 * record to the exported routes array (or to a parent's `children`) and
 * import its component.
 *
 * The routes file is given twice, as the parser would present it: as the
 * generic tree `insertImport` walks and as its top-level statements, whose
 * `export default` target is the route table of module Routes. The tree of
 * the file in which `resolveImportName` looks for clashing names is a third
 * input.
 */
module RouteInsertion {
  import opened Util
  import opened Changes
  import opened AstUtils
  import opened Imports
  import opened Routes

  /** The options the routes blueprint passes: the raw route, its flags and the component. */
  datatype PathOptions = PathOptions(route: string, isDefault: bool, outlet: string,
                                     component: string, dasherizedName: string)

  /** A top-level statement: an export assignment (whose full text may mention `export default`) or other. */
  datatype Statement =
    | ExportAssignmentStatement(mentionsExportDefault: bool, target: Option<ExportArray>)
    | OtherStatement

  /** The exported array literal: the end of its open bracket and its route objects. */
  datatype ExportArray = ExportArray(openBracketEnd: int, elements: seq<RouteObject>)

  // ---------------------------------------------------------------------
  // The component's path
  // ---------------------------------------------------------------------

  /** `[^/]*` taken greedily: what is left starts at the next `/`. */
  function DropSegment(t: string): (r: string)
    ensures r == [] || r[0] == '/'
    ensures |r| <= |t|
  {
    if t == [] || t[0] == '/' then t else DropSegment(t[1..])
  }

  /** `s.replace(/\/:[^/]*\/g, '')`: every `/:param` segment is deleted. */
  function StripPositional(s: string): string
    decreases |s|
  {
    if |s| >= 2 && s[0] == '/' && s[1] == ':' then StripPositional(DropSegment(s[2..]))
    else if s == [] then []
    else [s[0]] + StripPositional(s[1..])
  }

  /** `s.replace(/\/(\+)?/g, '/+')`: every `/`, with the `+` that may follow it, becomes `/+`. */
  function LazyMarks(s: string): string
  {
    if s == [] then []
    else if s[0] == '/' then "/+" + LazyMarks(if |s| > 1 && s[1] == '+' then s[2..] else s[1..])
    else [s[0]] + LazyMarks(s[1..])
  }

  /** The path the component is imported from. */
  function RoutePath(route: string, dasherizedName: string): string
  {
    "./app/+" + LazyMarks(StripPositional(route)) + "/" + dasherizedName + ".component"
  }

  /** The result of the deletion starts where the input does, or at a `/`. */
  lemma {:induction false} StripPositionalHead(t: string)
    requires StripPositional(t) != []
    ensures t != [] && (StripPositional(t)[0] == t[0] || StripPositional(t)[0] == '/')
    decreases |t|
  {
    if |t| >= 2 && t[0] == '/' && t[1] == ':' {
      var u := DropSegment(t[2..]);
      assert StripPositional(t) == StripPositional(u);
      StripPositionalHead(u);
    }
  }

  predicate NoParameterMark(r: string)
  {
    forall k :: 0 <= k < |r| - 1 ==> !(r[k] == '/' && r[k + 1] == ':')
  }

  predicate EverySlashMarked(r: string)
  {
    forall k :: 0 <= k < |r| && r[k] == '/' ==> k + 1 < |r| && r[k + 1] == '+'
  }

  /** No `/:` survives the deletion: no positional parameter reaches the path. */
  lemma {:induction false} StripPositionalRemovesParameters(s: string)
    ensures NoParameterMark(StripPositional(s))
    decreases |s|
  {
    if |s| >= 2 && s[0] == '/' && s[1] == ':' {
      assert StripPositional(s) == StripPositional(DropSegment(s[2..]));
      StripPositionalRemovesParameters(DropSegment(s[2..]));
    } else if s != [] {
      StripPositionalRemovesParameters(s[1..]);
      var rest := StripPositional(s[1..]);
      var r := StripPositional(s);
      assert r == [s[0]] + rest;
      if rest != [] && s[0] == '/' {
        StripPositionalHead(s[1..]);
      }
      forall k | 0 <= k < |r| - 1 ensures !(r[k] == '/' && r[k + 1] == ':') {
        if k > 0 {
          assert r[k] == rest[k - 1] && r[k + 1] == rest[k];
        }
      }
    }
  }

  /** A route without parameters is kept as it is. */
  lemma {:induction false} StripPositionalWithoutColon(s: string)
    requires ':' !in s
    ensures StripPositional(s) == s
  {
    if s != [] {
      assert ':' !in s[1..] by {
        forall c | c in s[1..] ensures c != ':' { assert c in s; }
      }
      StripPositionalWithoutColon(s[1..]);
    }
  }

  /** Every `/` of the marked path is followed by `+`: each segment is a lazy route folder. */
  lemma {:induction false} LazyMarksMarkEverySlash(s: string)
    ensures EverySlashMarked(LazyMarks(s))
  {
    if s != [] {
      var tail := if s[0] == '/' && |s| > 1 && s[1] == '+' then s[2..] else s[1..];
      LazyMarksMarkEverySlash(tail);
      var rest := LazyMarks(tail);
      var r := LazyMarks(s);
      if s[0] == '/' {
        assert r == "/+" + rest;
        forall k | 0 <= k < |r| && r[k] == '/' ensures k + 1 < |r| && r[k + 1] == '+' {
          if k >= 2 {
            assert r[k] == rest[k - 2];
            assert k - 1 < |rest| && r[k + 1] == rest[k - 1];
          }
        }
      } else {
        assert r == [s[0]] + rest;
        forall k | 0 <= k < |r| && r[k] == '/' ensures k + 1 < |r| && r[k + 1] == '+' {
          assert r[k] == rest[k - 1];
          assert k < |rest| && r[k + 1] == rest[k];
        }
      }
    }
  }

  /** A nested route `parent/child` lives in nested `+` folders. */
  lemma NestedRoutePath(parent: string, child: string)
    requires '/' !in parent && '/' !in child && ':' !in parent && ':' !in child
    requires child != [] && child[0] != '+'
    ensures RoutePath(parent + "/" + child, child) == "./app/+" + parent + "/+" + child + "/" + child + ".component"
  {
    assert ':' !in parent + "/" + child;
    StripPositionalWithoutColon(parent + "/" + child);
    LazyMarksOfSegments(parent, child);
  }

  /** A positional parameter adds no folder: `about/:id` is imported from the folder of `about`. */
  lemma ParameterRoutePath(name: string, param: string)
    requires '/' !in name && '/' !in param
    ensures RoutePath(name + "/:" + param, name) == "./app/+" + name + "/" + name + ".component"
  {
    StripPositionalOfParameter(name, param);
    LazyMarksOfSegment(name);
  }

  lemma LazyMarksOfSegment(a: string)
    requires '/' !in a
    ensures LazyMarks(a) == a
  {
    if a != [] {
      assert '/' !in a[1..] by {
        forall c | c in a[1..] ensures c != '/' { assert c in a; }
      }
      LazyMarksOfSegment(a[1..]);
      assert a[0] in a;
    }
  }

  lemma {:induction false} LazyMarksPrefix(a: string, t: string)
    requires '/' !in a
    ensures LazyMarks(a + t) == a + LazyMarks(t)
  {
    if a != [] {
      assert a[0] in a;
      assert '/' !in a[1..] by {
        forall c | c in a[1..] ensures c != '/' { assert c in a; }
      }
      assert (a + t)[1..] == a[1..] + t;
      LazyMarksPrefix(a[1..], t);
    } else {
      assert a + t == t;
    }
  }

  lemma LazyMarksOfSegments(a: string, b: string)
    requires '/' !in a && '/' !in b && (b != [] ==> b[0] != '+')
    ensures LazyMarks(a + "/" + b) == a + "/+" + b
  {
    LazyMarksPrefix(a, "/" + b);
    var t := "/" + b;
    assert t[0] == '/' && t[1..] == b;
    assert LazyMarks(t) == "/+" + LazyMarks(b);
    LazyMarksOfSegment(b);
    assert a + "/" + b == a + t;
  }

  lemma {:induction false} DropSegmentOfSegment(a: string)
    requires '/' !in a
    ensures DropSegment(a) == []
  {
    if a != [] {
      assert a[0] in a;
      assert '/' !in a[1..] by {
        forall c | c in a[1..] ensures c != '/' { assert c in a; }
      }
      DropSegmentOfSegment(a[1..]);
    }
  }

  lemma {:induction false} StripPositionalPrefix(a: string, t: string)
    requires '/' !in a
    ensures StripPositional(a + t) == a + StripPositional(t)
  {
    if a != [] {
      assert a[0] in a;
      assert '/' !in a[1..] by {
        forall c | c in a[1..] ensures c != '/' { assert c in a; }
      }
      assert (a + t)[1..] == a[1..] + t;
      StripPositionalPrefix(a[1..], t);
    } else {
      assert a + t == t;
    }
  }

  /** `a/:p` keeps only `a`. */
  lemma StripPositionalOfParameter(a: string, param: string)
    requires '/' !in a && '/' !in param
    ensures StripPositional(a + "/:" + param) == a
  {
    var t := "/:" + param;
    assert a + "/:" + param == a + t;
    StripPositionalPrefix(a, t);
    assert |t| >= 2 && t[0] == '/' && t[1] == ':';
    assert t[2..] == param;
    DropSegmentOfSegment(param);
    assert StripPositional(t) == StripPositional(DropSegment(t[2..]));
    assert a + [] == a;
  }

  // ---------------------------------------------------------------------
  // The insertion
  // ---------------------------------------------------------------------

  predicate IsExportDefault(s: Statement)
  {
    s.ExportAssignmentStatement? && s.mentionsExportDefault
  }

  /** The export assignments whose full text mentions `export default`, in order. */
  function ExportDefaults(statements: seq<Statement>): (r: seq<Statement>)
    ensures forall k :: 0 <= k < |r| ==> r[k].ExportAssignmentStatement? && r[k].mentionsExportDefault
    ensures forall s :: s in r <==> s in statements && IsExportDefault(s)
    ensures r == Filter(statements, IsExportDefault)
  {
    if statements == [] then []
    else
      var s := statements[|statements| - 1];
      ExportDefaults(statements[..|statements| - 1])
      + (if s.ExportAssignmentStatement? && s.mentionsExportDefault then [s] else [])
  }

  /** The symbol imported: the component, renamed when its name was taken. */
  function ImportedAs(original: string, resolved: string): string
  {
    if original == resolved then original else original + " as " + resolved
  }

  /** The record added to the top level of the array, with its line break and separator. */
  function TopLevelEdit(arr: ExportArray, route: string, component: string, options: PathOptions): ChildEdit
  {
    ChildEdit("\n  " + RouteRecord(route, component, options.isDefault, options.outlet)
              + (if arr.elements == [] then "\n" else ","), arr.openBracketEnd)
  }

  /**
   * Where and what to insert, once the array is known. The duplicate test
   * is `pathExists` as written (`anySibling == false`) or corrected.
   */
  function PlaceRecord(anySibling: bool, arr: ExportArray, route: string, component: string,
                       options: PathOptions): Result<ChildEdit>
  {
    var routes := TopLevel(arr.elements);
    if SearchPath(anySibling, routes, route, component, []) then Failure(DuplicateRoute)
    else
      var parent := GetParentSpec(routes, route, None);
      if parent.Some? then
        ChildEditSpec(parent.value, component, options.isDefault, options.outlet, route,
                      NestingLevel(parent.value))
      else Success(TopLevelEdit(arr, route, component, options))
  }

  /** The record's text and position: one `export default` array is required. */
  function RecordEdit(anySibling: bool, statements: seq<Statement>, route: string, component: string,
                      options: PathOptions): Result<ChildEdit>
  {
    var exports := ExportDefaults(statements);
    if |exports| != 1 then Failure(MultipleOrNoExportDefault)
    else if exports[0].target.None? then Failure(TypeError("array of the export default"))
    else PlaceRecord(anySibling, exports[0].target.value, route, component, options)
  }

  /**
   * The module the component is imported from: the route path with its
   * first `\` turned into `/`. The name resolution still reads the path
   * as it was.
   */
  function ImportPath(routePath: string): (p: string)
    ensures |p| == |routePath|
    ensures '\\' !in routePath ==> p == routePath
  {
    ReplaceFirst(routePath, '\\', '/')
  }

  /** The first `\` of the route path, at `k`, becomes `/`, and nothing else changes. */
  lemma ImportPathCorrectsFirstBackslash(routePath: string, k: nat)
    requires k < |routePath| && routePath[k] == '\\' && '\\' !in routePath[..k]
    ensures ImportPath(routePath) == routePath[..k] + "/" + routePath[k + 1..]
  {
    ReplaceFirstAt(routePath, '\\', '/', k);
  }

  /** The two planned changes, once the component's name and the record are known. */
  function WithImport(routesFile: string, routesTree: Node, imported: string, routePath: string,
                      edit: Result<ChildEdit>): Result<seq<Option<Change>>>
  {
    if edit.Failure? then Failure(edit.error)
    else
      var imp := InsertImportPlan(routesTree, routesFile, imported, routePath, false);
      if imp.Failure? then Failure(imp.error)
      else Success([Some(NewInsertChange(routesFile, edit.value.pos, edit.value.newContent, None, None)),
                    imp.value])
  }

  /** What `addPathToRoutes` returns: the record insertion, then the component import. */
  function AddPathPlan(anySibling: bool, routesFile: string, options: PathOptions, statements: seq<Statement>,
                       routesTree: Node, namesTree: Node): Result<seq<Option<Change>>>
  {
    var route := NormalizeRoute(options.route);
    var routePath := RoutePath(route, options.dasherizedName);
    var names := ImportNames(namesTree, routePath);
    if names.Failure? then Failure(names.error)
    else
      var component := ResolvedName(options.component, names.value);
      WithImport(routesFile, routesTree, ImportedAs(options.component, component), ImportPath(routePath),
                 RecordEdit(anySibling, statements, route, component, options))
  }

  /** The part of `addPathToRoutes` that finds the array, refuses duplicates and builds the record. */
  method PlanRecord(statements: seq<Statement>, route: string, component: string, options: PathOptions)
    returns (edit: Result<ChildEdit>)
    ensures edit == RecordEdit(false, statements, route, component, options)
  {
    var routesNode := ExportDefaults(statements);
    if |routesNode| != 1 {
      return Failure(MultipleOrNoExportDefault);
    }
    if routesNode[0].target.None? {
      return Failure(TypeError("array of the export default"));
    }
    var arr := routesNode[0].target.value;
    var pos := arr.openBracketEnd;
    var routesArray := TopLevel(arr.elements);
    var duplicate := PathExists(routesArray, route, component, []);
    if duplicate {
      return Failure(DuplicateRoute);
    }
    var content := RouteRecord(route, component, options.isDefault, options.outlet);
    var isChild := false;
    var parent := GetParent(routesArray, route, None);
    if parent.Some? {
      var childrenInfo := AddChildPath(parent.value, component, options.isDefault, options.outlet, route);
      if childrenInfo.Failure? {
        return Failure(childrenInfo.error);
      }
      content := childrenInfo.value.newContent;
      pos := childrenInfo.value.pos;
      isChild := true;
    }
    var isFirstElement := |routesArray| == 0;
    if !isChild {
      var separator := if isFirstElement then "\n" else ",";
      content := "\n  " + content + separator;
    }
    return Success(ChildEdit(content, pos));
  }

  /** `addPathToRoutes`. */
  method AddPathToRoutes(routesFile: string, options: PathOptions, statements: seq<Statement>,
                         routesTree: Node, namesTree: Node)
    returns (r: Result<seq<Option<Change>>>)
    ensures r == AddPathPlan(false, routesFile, options, statements, routesTree, namesTree)
  {
    var route := NormalizeRoute(options.route);
    var routePath := RoutePath(route, options.dasherizedName);
    var resolved := ResolveImportName(options.component, routePath, namesTree);
    if resolved.Failure? {
      return Failure(resolved.error);
    }
    var component := resolved.value;
    var edit := PlanRecord(statements, route, component, options);
    var imported := ImportedAs(options.component, component);
    r := FinishWithImport(routesFile, routesTree, imported, ImportPath(routePath), edit);
  }

  /** The record insertion is planned first, then the import of the component. */
  method FinishWithImport(routesFile: string, routesTree: Node, imported: string, routePath: string,
                          edit: Result<ChildEdit>)
    returns (r: Result<seq<Option<Change>>>)
    ensures r == WithImport(routesFile, routesTree, imported, routePath, edit)
  {
    if edit.Failure? {
      return Failure(edit.error);
    }
    var changes := [Some(NewInsertChange(routesFile, edit.value.pos, edit.value.newContent, None, None))];
    var importChange := InsertImport(routesTree, routesFile, imported, routePath, false);
    if importChange.Failure? {
      return Failure(importChange.error);
    }
    changes := changes + [importChange.value];
    assert changes == [changes[0], importChange.value];
    return Success(changes);
  }

  // ---------------------------------------------------------------------
  // What the insertion promises
  // ---------------------------------------------------------------------

  /**
   * Once the component's name is resolved, the plan is the record edit
   * followed by the import of the component, under its new name if it was
   * renamed; an error at any step is the result, with no change planned.
   */
  lemma AddPathIsRecordThenImport(anySibling: bool, routesFile: string, options: PathOptions,
                                  statements: seq<Statement>, routesTree: Node, namesTree: Node)
    requires ImportNames(namesTree, RoutePath(NormalizeRoute(options.route), options.dasherizedName)).Success?
    ensures var route := NormalizeRoute(options.route);
            var routePath := RoutePath(route, options.dasherizedName);
            var component := ResolvedName(options.component, ImportNames(namesTree, routePath).value);
            var edit := RecordEdit(anySibling, statements, route, component, options);
            var imp := InsertImportPlan(routesTree, routesFile, ImportedAs(options.component, component),
                                        ImportPath(routePath), false);
            var r := AddPathPlan(anySibling, routesFile, options, statements, routesTree, namesTree);
            && (r.Success? <==> edit.Success? && imp.Success?)
            && (edit.Failure? ==> r == Failure(edit.error))
            && (edit.Success? && imp.Failure? ==> r == Failure(imp.error))
            && (r.Success? ==> r.value == [Some(InsertChange(routesFile, edit.value.pos, edit.value.newContent, 1,
                                                              "Inserted " + edit.value.newContent + " into position "
                                                              + IntToString(edit.value.pos) + " of " + routesFile)),
                                           imp.value])
  {
  }

  /** A failure of the name resolution is the result. */
  lemma AddPathPropagatesResolutionFailure(anySibling: bool, routesFile: string, options: PathOptions,
                                           statements: seq<Statement>, routesTree: Node, namesTree: Node)
    requires ImportNames(namesTree, RoutePath(NormalizeRoute(options.route), options.dasherizedName)).Failure?
    ensures AddPathPlan(anySibling, routesFile, options, statements, routesTree, namesTree)
         == Failure(ImportNames(namesTree, RoutePath(NormalizeRoute(options.route), options.dasherizedName)).error)
  {
  }

  /** Not exactly one `export default` statement: no record is built. */
  lemma RecordNeedsOneExportDefault(anySibling: bool, statements: seq<Statement>, route: string,
                                    component: string, options: PathOptions)
    requires |ExportDefaults(statements)| != 1
    ensures RecordEdit(anySibling, statements, route, component, options) == Failure(MultipleOrNoExportDefault)
  {
  }

  /** A file without an `export default` statement is refused. */
  lemma NoExportDefaultRefused(anySibling: bool, statements: seq<Statement>, route: string,
                               component: string, options: PathOptions)
    requires forall k :: 0 <= k < |statements| ==> !IsExportDefault(statements[k])
    ensures RecordEdit(anySibling, statements, route, component, options) == Failure(MultipleOrNoExportDefault)
  {
    FilterNone(statements, IsExportDefault);
  }

  /** A file with two `export default` statements is refused. */
  lemma TwoExportDefaultsRefused(anySibling: bool, statements: seq<Statement>, route: string,
                                 component: string, options: PathOptions, i: nat, j: nat)
    requires i < j < |statements| && IsExportDefault(statements[i]) && IsExportDefault(statements[j])
    ensures RecordEdit(anySibling, statements, route, component, options) == Failure(MultipleOrNoExportDefault)
  {
    FilterTwo(statements, IsExportDefault, i, j);
  }

  /** With exactly one `export default` statement, its array is the one edited, wherever it is. */
  lemma OnlyExportDefaultIsEdited(anySibling: bool, statements: seq<Statement>, route: string,
                                  component: string, options: PathOptions, j: nat, arr: ExportArray)
    requires j < |statements| && statements[j] == ExportAssignmentStatement(true, Some(arr))
    requires forall i :: 0 <= i < |statements| && i != j ==> !IsExportDefault(statements[i])
    ensures RecordEdit(anySibling, statements, route, component, options)
         == PlaceRecord(anySibling, arr, route, component, options)
  {
    FilterOnly(statements, IsExportDefault, j);
  }

  lemma SingleExport(anySibling: bool, arr: ExportArray, route: string, component: string, options: PathOptions)
    ensures RecordEdit(anySibling, [ExportAssignmentStatement(true, Some(arr))], route, component, options)
         == PlaceRecord(anySibling, arr, route, component, options)
  {
    var stmts := [ExportAssignmentStatement(true, Some(arr))];
    assert stmts[..0] == [];
  }

  /**
   * A one-segment route already at the top level with the same path and
   * the component is refused as a duplicate, by either walk.
   */
  lemma RecordRefusesTopLevelDuplicate(anySibling: bool, arr: ExportArray, route: string, component: string,
                                       options: PathOptions, k: nat)
    requires k < |arr.elements|
    requires GetValueForKey(arr.elements[k], "path") == Some(route)
    requires GetValueForKey(arr.elements[k], "component") == Some(component)
    requires SplitRoute(route) == [route]
    ensures RecordEdit(anySibling, [ExportAssignmentStatement(true, Some(arr))], route, component, options)
         == Failure(DuplicateRoute)
  {
    var routes := TopLevel(arr.elements);
    assert routes[k] == Located(arr.elements[k], [ArrayAncestor, ExportAncestor, SourceFileAncestor]);
    TopLevelChainPath(route);
    SearchPathFindsOnThisLevel(anySibling, routes, route, component, [], routes[k]);
    SingleExport(anySibling, arr, route, component, options);
  }

  /**
   * Without a parent route the record goes right after the array's open
   * bracket, on a new line indented by two spaces, followed by a line break
   * if the array was empty and by a comma otherwise; a duplicate is refused.
   */
  lemma RecordAtTopLevel(anySibling: bool, arr: ExportArray, route: string, component: string,
                         options: PathOptions)
    requires GetParentSpec(TopLevel(arr.elements), route, None).None?
    ensures RecordEdit(anySibling, [ExportAssignmentStatement(true, Some(arr))], route, component, options)
         == if SearchPath(anySibling, TopLevel(arr.elements), route, component, []) then Failure(DuplicateRoute)
            else Success(ChildEdit("\n  " + RouteRecord(route, component, options.isDefault, options.outlet)
                                   + (if arr.elements == [] then "\n" else ","),
                                   arr.openBracketEnd))
  {
    SingleExport(anySibling, arr, route, component, options);
  }

  /**
   * Under a parent route the record is the text `addChildPath` builds, at
   * its position, indented for the parent's depth; a duplicate is refused.
   */
  lemma RecordUnderParent(anySibling: bool, arr: ExportArray, route: string, component: string,
                          options: PathOptions)
    requires GetParentSpec(TopLevel(arr.elements), route, None).Some?
    ensures SearchPath(anySibling, TopLevel(arr.elements), route, component, [])
            ==> RecordEdit(anySibling, [ExportAssignmentStatement(true, Some(arr))], route, component, options)
                == Failure(DuplicateRoute)
    ensures var parent := GetParentSpec(TopLevel(arr.elements), route, None).value;
            !SearchPath(anySibling, TopLevel(arr.elements), route, component, [])
            ==> RecordEdit(anySibling, [ExportAssignmentStatement(true, Some(arr))], route, component, options)
                == ChildEditSpec(parent, component, options.isDefault, options.outlet, route,
                                 2 * Depth(parent.chain) + 3)
    ensures InLevels(TopLevel(arr.elements), GetParentSpec(TopLevel(arr.elements), route, None).value)
  {
    SingleExport(anySibling, arr, route, component, options);
    ParentNestingLevel(arr, route);
  }

  /** The parent `getParent` finds is a route of the table, at nesting level 2d + 3. */
  lemma ParentNestingLevel(arr: ExportArray, route: string)
    requires GetParentSpec(TopLevel(arr.elements), route, None).Some?
    ensures var parent := GetParentSpec(TopLevel(arr.elements), route, None).value;
            InLevels(TopLevel(arr.elements), parent) && NestingLevel(parent) == 2 * Depth(parent.chain) + 3
  {
    var routes := TopLevel(arr.elements);
    var parent := GetParentSpec(routes, route, None).value;
    GetParentSound(routes, route, None);
    TopLevelRouteChain(arr.elements);
    ParentChainIsRouteChain(routes, route, None);
    NestingLevelOfRouteChain(parent);
  }

  /**
   * `s1/s2` under the first top-level route `r` with path `s1`: unless it is
   * a duplicate, the record `{ path: 's2', … }` goes first into `r`'s
   * `children` array, or into a new `children` property just before `r`'s
   * close brace, indented for the first level.
   */
  lemma RecordUnderTopLevelParent(anySibling: bool, arr: ExportArray, s1: string, s2: string,
                                  component: string, options: PathOptions, r: Located)
    requires s1 != [] && s2 != [] && '/' !in s1 && '/' !in s2 && ':' !in s2
    requires FirstByPosition(WithPath(TopLevel(arr.elements), s1)) == Some(r)
    requires forall e, c :: e in arr.elements && c in ChildrenIn(e.props) ==> GetValueForKey(c, "path") != Some(s2)
    ensures var e := RecordEdit(anySibling, [ExportAssignmentStatement(true, Some(arr))], s1 + "/" + s2,
                                component, options);
            var record := RouteRecord(s2, component, options.isDefault, options.outlet);
            var children := ChildrenProps(r.route.props);
            && (SearchPath(anySibling, TopLevel(arr.elements), s1 + "/" + s2, component, [])
                ==> e == Failure(DuplicateRoute))
            && (!SearchPath(anySibling, TopLevel(arr.elements), s1 + "/" + s2, component, [])
                && children != [] && children[0].value.Some? && children[0].value.value.ArrayLit?
                ==> e == Success(ChildEdit("\n      " + record + ", ", children[0].value.value.listPos)))
            && (!SearchPath(anySibling, TopLevel(arr.elements), s1 + "/" + s2, component, [])
                && children == []
                ==> e == Success(ChildEdit(",\n    children: [\n      " + record + " \n    ]\n ",
                                           r.route.closeBracePos)))
  {
    var routes := TopLevel(arr.elements);
    GetParentFindsTopLevelParent(arr.elements, s1, s2, r);
    RecordUnderParent(anySibling, arr, s1 + "/" + s2, component, options);
    var k :| 0 <= k < |routes| && routes[k] == r;
    assert r.chain == [ArrayAncestor, ExportAncestor, SourceFileAncestor];
    assert 2 * Depth(r.chain) + 3 == 3;
    ChildEditUnderFirstLevel(r, s1, s2, component, options.isDefault, options.outlet);
  }

  /**
   * The test of `pathExists` as written decides the insertion: on the table
   * `[{ path: 'a', …, children: [{ path: 'b', component: X }] }, { path: 'z', … }]`
   * the route `a/b` with component `X`, already present one level down, is
   * added again at the top level, while the corrected test refuses it.
   */
  lemma AsWrittenInsertsNestedDuplicate(options: PathOptions)
    ensures var arr := ExportArray(5, NestedExample());
            RecordEdit(false, [ExportAssignmentStatement(true, Some(arr))], "a/b", "X", options)
            == Success(TopLevelEdit(arr, "a/b", "X", options))
    ensures RecordEdit(true, [ExportAssignmentStatement(true, Some(ExportArray(5, NestedExample())))],
                       "a/b", "X", options)
            == Failure(DuplicateRoute)
  {
    var arr := ExportArray(5, NestedExample());
    PathExistsMissesNestedDuplicate();
    CorrectedReportsNestedDuplicate();
    NestedExampleHasNoParent();
    SingleExport(false, arr, "a/b", "X", options);
    SingleExport(true, arr, "a/b", "X", options);
  }

  /** Every parent `getParent` can return carries a chain the table walk builds. */
  lemma {:induction false} ParentChainIsRouteChain(routes: seq<Located>, route: string, parent: Option<Located>)
    requires forall k :: 0 <= k < |routes| ==> RouteChain(routes[k].chain)
    requires parent.Some? ==> RouteChain(parent.value.chain)
    requires GetParentSpec(routes, route, parent).Some?
    ensures RouteChain(GetParentSpec(routes, route, parent).value.chain)
    decreases MaxHeight(routes)
  {
    var split := SplitRoute(route);
    var potential := WithPath(routes, split[0]);
    var next := if potential != [] then Join(split[1..], "/") else route;
    if !(next != [] && parent.Some? && potential == []) {
      MaxHeightOfChildren(routes);
      ChildrenArrayKeepsRouteChain(routes);
      var below := FirstByPosition(potential);
      if below.Some? {
        var k :| 0 <= k < |routes| && routes[k] == below.value;
      }
      ParentChainIsRouteChain(ChildrenArray(routes), next, below);
    }
  }

  /** The component is imported under its own name when that name was free, renamed otherwise. */
  lemma ImportedAsNamesResolved(original: string, names: seq<Option<string>>)
    ensures Some(original) !in names ==> ImportedAs(original, ResolvedName(original, names)) == original
    ensures ResolvedName(original, names) != original ==>
              ImportedAs(original, ResolvedName(original, names)) == original + " as " + ResolvedName(original, names)
  {
    if Some(original) !in names {
      FreeNameIsKept(original, names);
    }
  }
}
