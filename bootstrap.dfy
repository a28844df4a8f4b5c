/**
 * `configureMain` of route-utils.ts: the planned edits that import
 * `provideRouter` and the routes array into the main file and register
 * `provideRouter(routes)` in its single `bootstrap(...)` call. The main
 * file's syntax tree is an input.
 */
module Bootstrap {
  import opened Util
  import opened Changes
  import opened AstUtils
  import opened Imports

  /** `node.getChildAt(0).getChildAt(0).text`: the name a statement starts with. */
  function HeadText(stmt: Node): (r: Result<string>)
    ensures r.Success? <==> ChildAt(stmt, 0).Some? && ChildAt(ChildAt(stmt, 0).value, 0).Some?
                            && ChildAt(ChildAt(stmt, 0).value, 0).value.text.Some?
  {
    var call := ChildAt(stmt, 0);
    if call.None? then Failure(TypeError("expression of the statement"))
    else
      var head := ChildAt(call.value, 0);
      if head.None? then Failure(TypeError("callee of the statement"))
      else if head.value.text.None? then Failure(TypeError("text of the callee"))
      else Success(head.value.text.value)
  }

  /** An expression statement whose leading name is `bootstrap`, in any letter case. */
  predicate IsBootstrapStatement(stmt: Node)
  {
    stmt.kind == ExpressionStatement && HeadText(stmt).Success?
    && ToLowerAscii(HeadText(stmt).value) == "bootstrap"
  }

  /**
   * The `filter` that picks the bootstrap calls. The leading name is read
   * only from expression statements; reading it from one that has none
   * throws, and the first such statement in order decides the error.
   */
  function BootstrapNodes(stmts: seq<Node>): (r: Result<seq<Node>>)
    ensures r.Success? ==>
              forall k :: 0 <= k < |r.value| ==> r.value[k] in stmts && IsBootstrapStatement(r.value[k])
  {
    if stmts == [] then Success([])
    else
      var init := BootstrapNodes(stmts[..|stmts| - 1]);
      var n := stmts[|stmts| - 1];
      if init.Failure? then init
      else if n.kind != ExpressionStatement then init
      else
        var head := HeadText(n);
        if head.Failure? then Failure(head.error)
        else if ToLowerAscii(head.value) == "bootstrap" then Success(init.value + [n])
        else init
  }

  /** When the filter succeeds it keeps exactly the bootstrap statements. */
  lemma {:induction false} BootstrapNodesComplete(stmts: seq<Node>, n: Node)
    requires BootstrapNodes(stmts).Success?
    requires n in stmts && IsBootstrapStatement(n)
    ensures n in BootstrapNodes(stmts).value
  {
    var last := |stmts| - 1;
    assert BootstrapNodes(stmts[..last]).Success?;
    if n != stmts[last] {
      assert stmts == stmts[..last] + [stmts[last]];
      BootstrapNodesComplete(stmts[..last], n);
    }
  }

  /** The texts of `nodes`, as `.map(_ => _.text)` lists them. */
  function Texts(nodes: seq<Node>): (r: seq<Option<string>>)
    ensures |r| == |nodes|
    ensures forall k :: 0 <= k < |r| ==> r[k] == nodes[k].text
  {
    if nodes == [] then [] else Texts(nodes[..|nodes| - 1]) + [nodes[|nodes| - 1].text]
  }

  /** `provideRouter` already appears as an identifier inside the call. */
  predicate IsBootstrapped(call: Node)
  {
    Some("provideRouter") in Texts(Collect(call, Identifier))
  }

  lemma IsBootstrappedIff(call: Node)
    ensures IsBootstrapped(call) <==>
              exists m :: InSubtree(m, call) && m.kind == Identifier && m.text == Some("provideRouter")
  {
    var ids := Collect(call, Identifier);
    if IsBootstrapped(call) {
      var k :| 0 <= k < |ids| && Texts(ids)[k] == Some("provideRouter");
      CollectExactly(call, Identifier, ids[k]);
    }
    forall m | InSubtree(m, call) && m.kind == Identifier && m.text == Some("provideRouter")
      ensures IsBootstrapped(call)
    {
      CollectExactly(call, Identifier, m);
      var k :| 0 <= k < |ids| && ids[k] == m;
      assert Texts(ids)[k] == Some("provideRouter");
    }
  }

  /**
   * The registration of `provideRouter(routesName)`: into the providers
   * array when the call has one (third element of its argument list), or
   * as a new array argument otherwise.
   */
  function ProviderEdit(call: Node, routesName: string, mainFile: string): Result<Change>
  {
    var args := ChildAt(call, 2);
    if args.None? then Failure(TypeError("arguments of the bootstrap call"))
    else
      var providers := ChildAt(args.value, 2);
      if providers.Some? then
        var list := ChildAt(providers.value, 1);
        if list.None? then Failure(TypeError("elements of the providers"))
        else
          var close := ChildAt(providers.value, 2);
          if close.None? then Failure(TypeError("close bracket of the providers"))
          else
            var separator := if |list.value.children| == 0 then "" else ", ";
            PlanInsertAfterLastOccurrence(list.value.children, "", separator + "provideRouter(" + routesName + ")",
                                          mainFile, Some(close.value.pos), None)
      else
        var close := ChildAt(call, 3);
        if close.None? then Failure(TypeError("close paren of the bootstrap call"))
        else
          PlanInsertAfterLastOccurrence(args.value.children, "", ", [provideRouter(" + routesName + ")]",
                                        mainFile, Some(close.value.pos), None)
  }

  /** The bootstrap part of `configureMain`, after the two imports. */
  function BootstrapEdits(root: Node, mainFile: string, routesName: string): Result<Option<Change>>
  {
    var stmts := TopLevelStatements(root);
    if stmts.Failure? then Failure(stmts.error)
    else
      var bootstrapNodes := BootstrapNodes(stmts.value);
      if bootstrapNodes.Failure? then Failure(bootstrapNodes.error)
      else if |bootstrapNodes.value| != 1 then Failure(MultipleOrNoBootstrap(mainFile))
      else
        var call := ChildAt(bootstrapNodes.value[0], 0).value;
        if IsBootstrapped(call) then Success(None)
        else
          var c := ProviderEdit(call, routesName, mainFile);
          if c.Failure? then Failure(c.error) else Success(Some(c.value))
  }

  /** What `configureMain` returns: the two imports, then the registration if one is needed. */
  function ConfigurePlan(root: Node, mainFile: string, routesName: string, routesFile: string)
    : Result<seq<Option<Change>>>
  {
    var routerImport := InsertImportPlan(root, mainFile, "provideRouter", "@angular/router", false);
    if routerImport.Failure? then Failure(routerImport.error)
    else
      var routesImport := InsertImportPlan(root, mainFile, routesName, routesFile, true);
      if routesImport.Failure? then Failure(routesImport.error)
      else
        var edit := BootstrapEdits(root, mainFile, routesName);
        if edit.Failure? then Failure(edit.error)
        else if edit.value.None? then Success([routerImport.value, routesImport.value])
        else Success([routerImport.value, routesImport.value, edit.value])
  }

  /** The bootstrap call of the main file, with the registration it needs. */
  method ConfigureBootstrap(root: Node, mainFile: string, routesName: string)
    returns (r: Result<Option<Change>>)
    ensures r == BootstrapEdits(root, mainFile, routesName)
  {
    var stmts := TopLevelStatements(root);
    if stmts.Failure? {
      return Failure(stmts.error);
    }
    var bootstrapNodes := BootstrapNodes(stmts.value);
    if bootstrapNodes.Failure? {
      return Failure(bootstrapNodes.error);
    }
    if |bootstrapNodes.value| != 1 {
      return Failure(MultipleOrNoBootstrap(mainFile));
    }
    var bootstrapNode := ChildAt(bootstrapNodes.value[0], 0).value;
    var identifiers := FindNodes(Some(bootstrapNode), Identifier, []);
    assert identifiers == Collect(bootstrapNode, Identifier);
    var isBootstraped := Some("provideRouter") in Texts(identifiers);
    if isBootstraped {
      return Success(None);
    }
    var c := ProviderEdit(bootstrapNode, routesName, mainFile);
    if c.Failure? {
      return Failure(c.error);
    }
    return Success(Some(c.value));
  }

  /** `configureMain`. */
  method ConfigureMain(root: Node, mainFile: string, routesName: string, routesFile: string)
    returns (r: Result<seq<Option<Change>>>)
    ensures r == ConfigurePlan(root, mainFile, routesName, routesFile)
  {
    var first := InsertImport(root, mainFile, "provideRouter", "@angular/router", false);
    if first.Failure? {
      return Failure(first.error);
    }
    var second := InsertImport(root, mainFile, routesName, routesFile, true);
    if second.Failure? {
      return Failure(second.error);
    }
    var changes := [first.value, second.value];
    var edit := ConfigureBootstrap(root, mainFile, routesName);
    if edit.Failure? {
      return Failure(edit.error);
    }
    if edit.value.Some? {
      changes := changes + [edit.value];
      assert changes == [first.value, second.value, edit.value];
    }
    return Success(changes);
  }

  // ---------------------------------------------------------------------
  // What `configureMain` promises
  // ---------------------------------------------------------------------

  /** Not exactly one bootstrap call: the main file is not configured. */
  lemma NeedsExactlyOneBootstrap(root: Node, mainFile: string, routesName: string)
    requires TopLevelStatements(root).Success?
    requires BootstrapNodes(TopLevelStatements(root).value).Success?
    requires |BootstrapNodes(TopLevelStatements(root).value).value| != 1
    ensures BootstrapEdits(root, mainFile, routesName) == Failure(MultipleOrNoBootstrap(mainFile))
  {
  }

  /** Two different bootstrap statements always make it refuse. */
  lemma TwoBootstrapsAreRefused(root: Node, mainFile: string, routesName: string, a: Node, b: Node)
    requires TopLevelStatements(root).Success?
    requires BootstrapNodes(TopLevelStatements(root).value).Success?
    requires a != b && a in TopLevelStatements(root).value && b in TopLevelStatements(root).value
    requires IsBootstrapStatement(a) && IsBootstrapStatement(b)
    ensures BootstrapEdits(root, mainFile, routesName) == Failure(MultipleOrNoBootstrap(mainFile))
  {
    var stmts := TopLevelStatements(root).value;
    var bs := BootstrapNodes(stmts).value;
    BootstrapNodesComplete(stmts, a);
    BootstrapNodesComplete(stmts, b);
    var i :| 0 <= i < |bs| && bs[i] == a;
    var j :| 0 <= j < |bs| && bs[j] == b;
    assert i != j;
    NeedsExactlyOneBootstrap(root, mainFile, routesName);
  }

  /**
   * A main file whose bootstrap call already mentions `provideRouter` gets
   * only the two imports: configuring it again registers nothing.
   */
  lemma AlreadyConfiguredMainGetsOnlyImports(root: Node, mainFile: string, routesName: string,
                                             routesFile: string)
    requires InsertImportPlan(root, mainFile, "provideRouter", "@angular/router", false).Success?
    requires InsertImportPlan(root, mainFile, routesName, routesFile, true).Success?
    requires TopLevelStatements(root).Success?
    requires BootstrapNodes(TopLevelStatements(root).value).Success?
    requires |BootstrapNodes(TopLevelStatements(root).value).value| == 1
    requires IsBootstrapped(ChildAt(BootstrapNodes(TopLevelStatements(root).value).value[0], 0).value)
    ensures ConfigurePlan(root, mainFile, routesName, routesFile)
         == Success([InsertImportPlan(root, mainFile, "provideRouter", "@angular/router", false).value,
                     InsertImportPlan(root, mainFile, routesName, routesFile, true).value])
  {
  }

  /**
   * With a providers array, `provideRouter(routesName)` is added after its
   * last element (with `, ` in front), or just before its close bracket
   * when it is empty.
   */
  lemma RegistersInProvidersArray(call: Node, routesName: string, mainFile: string)
    requires ChildAt(call, 2).Some? && ChildAt(ChildAt(call, 2).value, 2).Some?
    requires var providers := ChildAt(ChildAt(call, 2).value, 2).value;
             ChildAt(providers, 1).Some? && ChildAt(providers, 2).Some?
    ensures var providers := ChildAt(ChildAt(call, 2).value, 2).value;
            var elements := ChildAt(providers, 1).value.children;
            var c := ProviderEdit(call, routesName, mainFile);
            && c.Success? && c.value.InsertChange? && c.value.path == mainFile
            && c.value.toAdd == (if elements == [] then "" else ", ") + "provideRouter(" + routesName + ")"
            && c.value.pos == (if elements == [] then ChildAt(providers, 2).value.pos
                               else LastByPosition(elements).value.end)
  {
  }

  /**
   * Without one, `, [provideRouter(routesName)]` is added after the last
   * argument, or just before the close paren when there is none.
   */
  lemma RegistersNewProvidersArgument(call: Node, routesName: string, mainFile: string)
    requires ChildAt(call, 2).Some? && ChildAt(ChildAt(call, 2).value, 2).None?
    requires ChildAt(call, 3).Some?
    ensures var args := ChildAt(call, 2).value.children;
            var c := ProviderEdit(call, routesName, mainFile);
            && c.Success? && c.value.InsertChange? && c.value.path == mainFile
            && c.value.toAdd == ", [provideRouter(" + routesName + ")]"
            && c.value.pos == (if args == [] then ChildAt(call, 3).value.pos else LastByPosition(args).value.end)
  {
  }

  /** The routes array is imported as a default import, `provideRouter` as a named one. */
  lemma ImportsComeFirst(root: Node, mainFile: string, routesName: string, routesFile: string)
    requires ConfigurePlan(root, mainFile, routesName, routesFile).Success?
    ensures var r := ConfigurePlan(root, mainFile, routesName, routesFile).value;
            && 2 <= |r| <= 3
            && r[0] == InsertImportPlan(root, mainFile, "provideRouter", "@angular/router", false).value
            && r[1] == InsertImportPlan(root, mainFile, routesName, routesFile, true).value
            && (|r| == 3 <==> BootstrapEdits(root, mainFile, routesName).value.Some?)
  {
  }
}
