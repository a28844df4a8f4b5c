/**
 * Import planning (route-utils.ts): `insertImport`, which decides whether a
 * file needs a new import binding and where the text goes, and
 * `resolveImportName`, which picks a binding name that does not clash with
 * the names already imported from other modules.
 *
 * The edits are returned as planned `Change` values rather than applied on
 * the spot; the batch rule in `ApplyChanges` applies them.
 */
module Imports {
  import opened Util
  import opened Sorting
  import opened Changes
  import opened AstUtils

  // ---------------------------------------------------------------------
  // insertImport
  // ---------------------------------------------------------------------

  /** The `text` of the direct string-literal children of an import declaration. */
  function ModuleSpecifiers(children: seq<Node>): (r: seq<Option<string>>)
    ensures |r| <= |children|
  {
    if children == [] then []
    else ModuleSpecifiers(children[..|children| - 1])
         + (if children[|children| - 1].kind == StringLiteral then [children[|children| - 1].text] else [])
  }

  function CountOf(s: seq<Option<string>>, x: string): nat
  {
    if s == [] then 0 else CountOf(s[..|s| - 1], x) + (if s[|s| - 1] == Some(x) then 1 else 0)
  }

  /** An import declaration imports from `fileName` when exactly one of its literals names it. */
  predicate ImportsFrom(decl: Node, fileName: string)
  {
    CountOf(ModuleSpecifiers(decl.children), fileName) == 1
  }

  /** `ImportsFrom` as the test of a filter. */
  function ImportsFromFile(fileName: string): Node -> bool
  {
    (d: Node) => ImportsFrom(d, fileName)
  }

  /** The `relevantImports` filter: the import declarations from `fileName`, in order. */
  function RelevantImports(imports: seq<Node>, fileName: string): (r: seq<Node>)
    ensures |r| <= |imports|
    ensures forall k :: 0 <= k < |r| ==> r[k] in imports && ImportsFrom(r[k], fileName)
    ensures forall d :: d in r <==> d in imports && ImportsFrom(d, fileName)
    ensures r == Filter(imports, ImportsFromFile(fileName))
  {
    if imports == [] then []
    else RelevantImports(imports[..|imports| - 1], fileName)
         + (if ImportsFrom(imports[|imports| - 1], fileName) then [imports[|imports| - 1]] else [])
  }

  lemma {:induction false} RelevantImportsComplete(imports: seq<Node>, fileName: string, d: Node)
    requires d in imports && ImportsFrom(d, fileName)
    ensures d in RelevantImports(imports, fileName)
  {
    var n := |imports| - 1;
    if d != imports[n] {
      assert imports == imports[..n] + [imports[n]];
      RelevantImportsComplete(imports[..n], fileName, d);
    }
  }

  /** The identifiers of the given declarations, declaration by declaration, each in pre-order. */
  function IdentifiersOf(decls: seq<Node>): seq<Node>
  {
    if decls == [] then [] else IdentifiersOf(decls[..|decls| - 1]) + Collect(decls[|decls| - 1], Identifier)
  }

  /** Some declaration contains a `*`. */
  predicate HasWildcard(decls: seq<Node>)
  {
    decls != [] && (HasWildcard(decls[..|decls| - 1]) || Collect(decls[|decls| - 1], AsteriskToken) != [])
  }

  lemma {:induction false} HasWildcardIff(decls: seq<Node>)
    ensures HasWildcard(decls) <==> exists k :: 0 <= k < |decls| && Collect(decls[k], AsteriskToken) != []
  {
    if decls != [] {
      var n := |decls| - 1;
      HasWildcardIff(decls[..n]);
      if k :| 0 <= k < |decls| && Collect(decls[k], AsteriskToken) != [] {
        if k < n {
          assert decls[..n][k] == decls[k];
        }
      }
    }
  }

  /** `m` is one of the identifiers collected from `decls` exactly when it is an identifier inside one of them. */
  lemma {:induction false} IdentifiersOfMembers(decls: seq<Node>, m: Node)
    ensures m in IdentifiersOf(decls) <==> m.kind == Identifier && InSomeOf(m, decls)
  {
    if decls != [] {
      var n := |decls| - 1;
      var init := decls[..n];
      IdentifiersOfMembers(init, m);
      CollectExactly(decls[n], Identifier, m);
      assert m in IdentifiersOf(decls) <==> m in IdentifiersOf(init) || m in Collect(decls[n], Identifier);
      InSomeOfSnoc(m, decls);
    }
  }

  /** `m` lies in the subtree of one of `decls`. */
  predicate InSomeOf(m: Node, decls: seq<Node>)
  {
    exists k :: 0 <= k < |decls| && InSubtree(m, decls[k])
  }

  lemma InSomeOfSnoc(m: Node, decls: seq<Node>)
    requires decls != []
    ensures InSomeOf(m, decls) <==> InSomeOf(m, decls[..|decls| - 1]) || InSubtree(m, decls[|decls| - 1])
  {
    var n := |decls| - 1;
    if InSomeOf(m, decls) {
      var k :| 0 <= k < |decls| && InSubtree(m, decls[k]);
      if k < n {
        assert decls[..n][k] == decls[k];
      }
    }
    if InSomeOf(m, decls[..n]) {
      var k :| 0 <= k < n && InSubtree(m, decls[..n][k]);
      assert InSubtree(m, decls[k]);
    }
  }

  /** The test `n => n.text === symbolName`. */
  function TextIs(symbolName: string): Node -> bool
  {
    (n: Node) => n.text == Some(symbolName)
  }

  /** The identifiers whose text is `symbolName`. */
  function Named(ids: seq<Node>, symbolName: string): (r: seq<Node>)
    ensures forall k :: 0 <= k < |r| ==> r[k] in ids && r[k].text == Some(symbolName)
    ensures r == Filter(ids, TextIs(symbolName))
  {
    if ids == [] then []
    else Named(ids[..|ids| - 1], symbolName)
         + (if ids[|ids| - 1].text == Some(symbolName) then [ids[|ids| - 1]] else [])
  }

  lemma {:induction false} NamedEmptyIff(ids: seq<Node>, symbolName: string)
    ensures Named(ids, symbolName) == [] <==> forall m :: m in ids ==> m.text != Some(symbolName)
  {
    if ids != [] {
      var n := |ids| - 1;
      NamedEmptyIff(ids[..n], symbolName);
      assert ids == ids[..n] + [ids[n]];
    }
  }

  /**
   * The fallback offset for a new binding in an existing clause:
   * `closeBraces[0].pos || fromKeywords[0].pos`. A missing token is a
   * dereference of `undefined`, and a close brace at offset 0 is falsy.
   */
  function ClauseFallback(decl: Node): (r: Result<int>)
    ensures Collect(decl, CloseBraceToken) == [] ==> r == Failure(TypeError("close brace of the import clause"))
    ensures var braces := Collect(decl, CloseBraceToken);
            braces != [] && braces[0].pos != 0 ==> r == Success(braces[0].pos)
    ensures var braces, froms := Collect(decl, CloseBraceToken), Collect(decl, FromKeyword);
            braces != [] && braces[0].pos == 0
            ==> && (r.Success? <==> froms != [])
                && (r.Success? ==> r.value == froms[0].pos)
                && (froms == [] ==> r == Failure(TypeError("from keyword of the import clause")))
  {
    var braces := Collect(decl, CloseBraceToken);
    if braces == [] then Failure(TypeError("close brace of the import clause"))
    else if braces[0].pos != 0 then Success(braces[0].pos)
    else
      var froms := Collect(decl, FromKeyword);
      if froms == [] then Failure(TypeError("from keyword of the import clause"))
      else Success(froms[0].pos)
  }

  /** The literals `'use strict'` of the file, in pre-order. */
  function UseStrict(literals: seq<Node>): (r: seq<Node>)
    ensures forall m :: m in r <==> m in literals && m.text == Some("use strict")
    ensures r == Filter(literals, TextIs("use strict"))
  {
    Named(literals, "use strict")
  }

  /** The first `'use strict'` literal in pre-order is the one whose end is the fallback. */
  lemma UseStrictFirst(literals: seq<Node>, j: nat)
    requires j < |literals| && literals[j].text == Some("use strict")
    requires forall i :: 0 <= i < j ==> literals[i].text != Some("use strict")
    ensures UseStrict(literals) != [] && UseStrict(literals)[0] == literals[j]
  {
    FilterFirst(literals, TextIs("use strict"), j);
  }

  /** The text of a new import declaration. */
  function ImportDeclarationText(symbolName: string, fileName: string, isDefault: bool,
                                 insertAtBeginning: bool): string
  {
    var open := if isDefault then "" else "{ ";
    var close := if isDefault then "" else " }";
    var separator := if insertAtBeginning then "" else ";\n";
    separator + "import " + open + symbolName + close + " from '" + fileName + "'"
    + (if insertAtBeginning then ";\n" else "")
  }

  /** The edit into the clause of an existing import from the module, or none. */
  function ExtendClausePlan(relevant: seq<Node>, fileToEdit: string, symbolName: string)
    : (r: Result<Option<Change>>)
    requires relevant != []
  {
    if HasWildcard(relevant) then Success(None)
    else
      var imports := IdentifiersOf(relevant);
      if Named(imports, symbolName) != [] then Success(None)
      else
        var fallback := ClauseFallback(relevant[0]);
        if fallback.Failure? then Failure(fallback.error)
        else
          var plan := PlanInsertAfterLastOccurrence(imports, "", ", " + symbolName, fileToEdit,
                                                    Some(fallback.value), None);
          Success(Some(plan.value))
  }

  /** The edit adding a whole import declaration. */
  function NewDeclarationPlan(root: Node, fileToEdit: string, symbolName: string, fileName: string,
                              isDefault: bool): Change
  {
    var allImports := Collect(root, ImportDeclaration);
    var useStrict := UseStrict(Collect(root, StringLiteral));
    var fallbackPos := if useStrict != [] then useStrict[0].end else 0;
    var insertAtBeginning := allImports == [] && useStrict == [];
    PlanInsertAfterLastOccurrence(
      allImports, "", ImportDeclarationText(symbolName, fileName, isDefault, insertAtBeginning),
      fileToEdit, Some(fallbackPos), Some(StringLiteral)).value
  }

  /** What `insertImport` decides for the file whose tree is `root`. */
  function InsertImportPlan(root: Node, fileToEdit: string, symbolName: string, fileName: string,
                            isDefault: bool): Result<Option<Change>>
  {
    var relevant := RelevantImports(Collect(root, ImportDeclaration), fileName);
    if relevant != [] then ExtendClausePlan(relevant, fileToEdit, symbolName)
    else Success(Some(NewDeclarationPlan(root, fileToEdit, symbolName, fileName, isDefault)))
  }

  /** The `forEach` over the relevant imports: their identifiers, and whether any has a `*`. */
  method GatherImports(relevantImports: seq<Node>) returns (imports: seq<Node>, importsAsterisk: bool)
    ensures imports == IdentifiersOf(relevantImports)
    ensures importsAsterisk == HasWildcard(relevantImports)
  {
    importsAsterisk := false;
    imports := [];
    var i := 0;
    while i < |relevantImports|
      invariant 0 <= i <= |relevantImports|
      invariant imports == IdentifiersOf(relevantImports[..i])
      invariant importsAsterisk == HasWildcard(relevantImports[..i])
    {
      var n := relevantImports[i];
      assert relevantImports[..i + 1][..i] == relevantImports[..i];
      imports := FindNodes(Some(n), Identifier, imports);
      var stars := FindNodes(Some(n), AsteriskToken, []);
      if |stars| > 0 {
        importsAsterisk := true;
      }
      i := i + 1;
    }
    assert relevantImports[..i] == relevantImports;
  }

  /** The branch of `insertImport` for a module that is already imported. */
  method ExtendClause(relevantImports: seq<Node>, fileToEdit: string, symbolName: string)
    returns (r: Result<Option<Change>>)
    requires relevantImports != []
    ensures r == ExtendClausePlan(relevantImports, fileToEdit, symbolName)
  {
    var imports, importsAsterisk := GatherImports(relevantImports);
    if importsAsterisk {
      return Success(None);
    }
    var importTextNodes := Named(imports, symbolName);
    if |importTextNodes| == 0 {
      var braces := FindNodes(Some(relevantImports[0]), CloseBraceToken, []);
      if |braces| == 0 {
        return Failure(TypeError("close brace of the import clause"));
      }
      var fallbackPos := braces[0].pos;
      if fallbackPos == 0 {
        var froms := FindNodes(Some(relevantImports[0]), FromKeyword, []);
        if |froms| == 0 {
          return Failure(TypeError("from keyword of the import clause"));
        }
        fallbackPos := froms[0].pos;
      }
      var plan := PlanInsertAfterLastOccurrence(imports, "", ", " + symbolName, fileToEdit,
                                                Some(fallbackPos), None);
      return Success(Some(plan.value));
    }
    return Success(None);
  }

  /** `insertImport`. */
  method InsertImport(root: Node, fileToEdit: string, symbolName: string, fileName: string,
                      isDefault: bool)
    returns (r: Result<Option<Change>>)
    ensures r == InsertImportPlan(root, fileToEdit, symbolName, fileName, isDefault)
  {
    var allImports := FindNodes(Some(root), ImportDeclaration, []);
    assert allImports == Collect(root, ImportDeclaration);
    var relevantImports := RelevantImports(allImports, fileName);
    if |relevantImports| > 0 {
      r := ExtendClause(relevantImports, fileToEdit, symbolName);
      return;
    }
    var literals := FindNodes(Some(root), StringLiteral, []);
    assert literals == Collect(root, StringLiteral);
    var useStrict := UseStrict(literals);
    var fallbackPos := 0;
    if |useStrict| > 0 {
      fallbackPos := useStrict[0].end;
    }
    var insertAtBeginning := |allImports| == 0 && |useStrict| == 0;
    var text := ImportDeclarationText(symbolName, fileName, isDefault, insertAtBeginning);
    var plan := PlanInsertAfterLastOccurrence(allImports, "", text, fileToEdit, Some(fallbackPos),
                                              Some(StringLiteral));
    return Success(Some(plan.value));
  }

  /** The import declarations of the file that name `fileName` exactly once among their literals. */
  ghost predicate ImportedFrom(root: Node, fileName: string, d: Node)
  {
    InSubtree(d, root) && d.kind == ImportDeclaration && ImportsFrom(d, fileName)
  }

  lemma RelevantIsImportedFrom(root: Node, fileName: string, d: Node)
    ensures d in RelevantImports(Collect(root, ImportDeclaration), fileName) <==> ImportedFrom(root, fileName, d)
  {
    var all := Collect(root, ImportDeclaration);
    CollectExactly(root, ImportDeclaration, d);
    if ImportedFrom(root, fileName, d) {
      RelevantImportsComplete(all, fileName, d);
    }
    if d in RelevantImports(all, fileName) {
      var k :| 0 <= k < |RelevantImports(all, fileName)| && RelevantImports(all, fileName)[k] == d;
    }
  }

  /** A wildcard import from the module means no edit at all. */
  lemma NoEditAfterWildcard(root: Node, fileToEdit: string, symbolName: string, fileName: string,
                            isDefault: bool, d: Node, star: Node)
    requires ImportedFrom(root, fileName, d)
    requires InSubtree(star, d) && star.kind == AsteriskToken
    ensures InsertImportPlan(root, fileToEdit, symbolName, fileName, isDefault) == Success(None)
  {
    var relevant := RelevantImports(Collect(root, ImportDeclaration), fileName);
    RelevantIsImportedFrom(root, fileName, d);
    var k :| 0 <= k < |relevant| && relevant[k] == d;
    CollectExactly(d, AsteriskToken, star);
    HasWildcardIff(relevant);
  }

  /** An identifier `symbolName` inside an import from the module means no edit. */
  lemma NoEditWhenBound(root: Node, fileToEdit: string, symbolName: string, fileName: string,
                        isDefault: bool, d: Node, id: Node)
    requires ImportedFrom(root, fileName, d)
    requires InSubtree(id, d) && id.kind == Identifier && id.text == Some(symbolName)
    ensures InsertImportPlan(root, fileToEdit, symbolName, fileName, isDefault) == Success(None)
  {
    var relevant := RelevantImports(Collect(root, ImportDeclaration), fileName);
    RelevantIsImportedFrom(root, fileName, d);
    var k :| 0 <= k < |relevant| && relevant[k] == d;
    IdentifiersOfMembers(relevant, id);
    NamedEmptyIff(IdentifiersOf(relevant), symbolName);
  }

  /**
   * With an import from the module that neither has a wildcard nor binds
   * the symbol, the edit is `, symbolName` right after the last identifier
   * of those imports, or at the clause fallback when they have none.
   */
  lemma ExtendsExistingClause(root: Node, fileToEdit: string, symbolName: string, fileName: string,
                              isDefault: bool)
    requires RelevantImports(Collect(root, ImportDeclaration), fileName) != []
    requires forall d, star :: ImportedFrom(root, fileName, d) && InSubtree(star, d) ==> star.kind != AsteriskToken
    requires forall d, id :: ImportedFrom(root, fileName, d) && InSubtree(id, d) && id.kind == Identifier
               ==> id.text != Some(symbolName)
    ensures var relevant := RelevantImports(Collect(root, ImportDeclaration), fileName);
            var r := InsertImportPlan(root, fileToEdit, symbolName, fileName, isDefault);
            var ids := IdentifiersOf(relevant);
            (r.Failure? <==> ClauseFallback(relevant[0]).Failure?)
            && (r.Success? ==>
                  (r.value.Some? && r.value.value.toAdd == ", " + symbolName
                   && r.value.value.pos == (if ids == [] then ClauseFallback(relevant[0]).value
                                            else LastByPosition(ids).value.end)))
  {
    var relevant := RelevantImports(Collect(root, ImportDeclaration), fileName);
    HasWildcardIff(relevant);
    if HasWildcard(relevant) {
      var k :| 0 <= k < |relevant| && Collect(relevant[k], AsteriskToken) != [];
      var star := Collect(relevant[k], AsteriskToken)[0];
      CollectExactly(relevant[k], AsteriskToken, star);
      RelevantIsImportedFrom(root, fileName, relevant[k]);
      assert false;
    }
    var ids := IdentifiersOf(relevant);
    forall m | m in ids ensures m.text != Some(symbolName) {
      IdentifiersOfMembers(relevant, m);
      assert InSomeOf(m, relevant);
      var k :| 0 <= k < |relevant| && InSubtree(m, relevant[k]);
      RelevantIsImportedFrom(root, fileName, relevant[k]);
    }
    NamedEmptyIff(ids, symbolName);
    assert InsertImportPlan(root, fileToEdit, symbolName, fileName, isDefault)
        == ExtendClausePlan(relevant, fileToEdit, symbolName);
    ExtendClauseShape(relevant, fileToEdit, symbolName);
  }

  /** The clause extension once neither a wildcard nor the symbol is found. */
  lemma ExtendClauseShape(relevant: seq<Node>, fileToEdit: string, symbolName: string)
    requires relevant != [] && !HasWildcard(relevant) && Named(IdentifiersOf(relevant), symbolName) == []
    ensures var r := ExtendClausePlan(relevant, fileToEdit, symbolName);
            var ids := IdentifiersOf(relevant);
            (r.Failure? <==> ClauseFallback(relevant[0]).Failure?)
            && (r.Success? ==>
                  (r.value.Some? && r.value.value.toAdd == ", " + symbolName
                   && r.value.value.pos == (if ids == [] then ClauseFallback(relevant[0]).value
                                            else LastByPosition(ids).value.end)))
  {
    var ids := IdentifiersOf(relevant);
    var fallback := ClauseFallback(relevant[0]);
    if fallback.Success? {
      AnchorIsLastCandidate(ids);
      var plan := PlanInsertAfterLastOccurrence(ids, "", ", " + symbolName, fileToEdit, Some(fallback.value), None);
      assert ExtendClausePlan(relevant, fileToEdit, symbolName) == Success(Some(plan.value));
    }
  }

  /**
   * With no import from the module, a new declaration goes after the last
   * import's module literal, else after the first `'use strict'`, else at
   * offset 0; only in the last case does it end with `;\n` and lack the
   * leading `;\n`.
   */
  lemma AddsNewDeclaration(root: Node, fileToEdit: string, symbolName: string, fileName: string,
                           isDefault: bool)
    requires RelevantImports(Collect(root, ImportDeclaration), fileName) == []
    ensures var all := Collect(root, ImportDeclaration);
            var strict := UseStrict(Collect(root, StringLiteral));
            var anchor := Anchor(all, Some(StringLiteral));
            var r := InsertImportPlan(root, fileToEdit, symbolName, fileName, isDefault);
            r.Success? && r.value.Some?
            && r.value.value.InsertChange? && r.value.value.path == fileToEdit
            && r.value.value.toAdd == ImportDeclarationText(symbolName, fileName, isDefault, all == [] && strict == [])
            && r.value.value.pos == (if anchor.Some? then anchor.value.end
                                     else if strict != [] then strict[0].end else 0)
  {
  }

  /** A new declaration in an import-free file without `'use strict'` goes in front of the text. */
  lemma NewDeclarationAtBeginning(root: Node, fileToEdit: string, symbolName: string, fileName: string,
                                  content: string)
    requires Collect(root, ImportDeclaration) == []
    requires UseStrict(Collect(root, StringLiteral)) == []
    ensures var r := InsertImportPlan(root, fileToEdit, symbolName, fileName, false);
            r.Success? && r.value.Some?
            && Splice(r.value.value, content)
               == "import { " + symbolName + " } from '" + fileName + "';\n" + content
  {
    assert RelevantImports([], fileName) == [];
    assert Anchor([], Some(StringLiteral)).None?;
    AddsNewDeclaration(root, fileToEdit, symbolName, fileName, false);
    var c := InsertImportPlan(root, fileToEdit, symbolName, fileName, false).value.value;
    AtBeginningText(symbolName, fileName);
    SpliceAtStart(c, content);
  }

  /** The named-import declaration for the start of a file. */
  lemma AtBeginningText(symbolName: string, fileName: string)
    ensures ImportDeclarationText(symbolName, fileName, false, true)
         == "import { " + symbolName + " } from '" + fileName + "';\n"
  {
  }

  /** An insertion at offset 0 puts its text in front of the content. */
  lemma SpliceAtStart(c: Change, content: string)
    requires c.InsertChange? && c.pos == 0
    ensures Splice(c, content) == c.toAdd + content
  {
    assert content[..0] == [] && content[0..] == content;
  }

  /** Braces are left out only in the style for default exports. */
  lemma BracesUnlessDefault(symbolName: string, fileName: string, atBeginning: bool)
    ensures var sep := if atBeginning then "" else ";\n";
            var tail := if atBeginning then ";\n" else "";
            ImportDeclarationText(symbolName, fileName, false, atBeginning)
              == sep + "import { " + symbolName + " } from '" + fileName + "'" + tail
            && ImportDeclarationText(symbolName, fileName, true, atBeginning)
              == sep + "import " + symbolName + " from '" + fileName + "'" + tail
  {
  }

  // ---------------------------------------------------------------------
  // resolveImportName
  // ---------------------------------------------------------------------

  /**
   * The `importNames` reduction: for each top-level import declaration whose
   * last module literal is not `importPath`, the text of its last identifier.
   * A declaration with no literal, or one with no identifier, makes the
   * source dereference `undefined`.
   */
  function NamesFrom(decls: seq<Node>, importPath: string): Result<seq<Option<string>>>
  {
    if decls == [] then Success([])
    else
      var init := NamesFrom(decls[..|decls| - 1], importPath);
      var b := decls[|decls| - 1];
      var literals := Collect(b, StringLiteral);
      if init.Failure? then init
      else if literals == [] then Failure(TypeError("module literal of an import"))
      else if literals[|literals| - 1].text == Some(importPath) then init
      else
        var ids := Collect(b, Identifier);
        if ids == [] then Failure(TypeError("identifier of an import"))
        else Success(init.value + [ids[|ids| - 1].text])
  }

  /** The top-level statements: `rootNode.getChildAt(0).getChildren()`. */
  function TopLevelStatements(root: Node): Result<seq<Node>>
  {
    var list := ChildAt(root, 0);
    if list.None? then Failure(TypeError("statement list of the source file"))
    else Success(list.value.children)
  }

  predicate IsImportDeclaration(n: Node)
  {
    n.kind == ImportDeclaration
  }

  /** `.filter(n => n.kind === ts.SyntaxKind.ImportDeclaration)` over the statements. */
  function TopLevelImports(statements: seq<Node>): (r: seq<Node>)
    ensures forall m :: m in r <==> m in statements && m.kind == ImportDeclaration
    ensures r == Filter(statements, IsImportDeclaration)
  {
    if statements == [] then []
    else TopLevelImports(statements[..|statements| - 1])
         + (if statements[|statements| - 1].kind == ImportDeclaration then [statements[|statements| - 1]] else [])
  }

  function ImportNames(root: Node, importPath: string): Result<seq<Option<string>>>
  {
    var statements := TopLevelStatements(root);
    if statements.Failure? then Failure(statements.error)
    else NamesFrom(TopLevelImports(statements.value), importPath)
  }

  /** The `k`-th name tried: `base`, then `base_1`, `base_2`, ... */
  function Candidate(base: string, k: nat): string
  {
    if k == 0 then base else base + "_" + NatToString(k)
  }

  lemma CandidateInjective(base: string, i: nat, j: nat)
    requires Candidate(base, i) == Candidate(base, j)
    ensures i == j
  {
    if i != 0 && j != 0 {
      var p := base + "_";
      assert Candidate(base, i) == p + NatToString(i);
      assert Candidate(base, j) == p + NatToString(j);
      assert NatToString(i) == Candidate(base, i)[|p|..];
      assert NatToString(j) == Candidate(base, j)[|p|..];
      NatToStringInjective(i, j);
    }
  }

  ghost function Taken(names: seq<Option<string>>): set<string>
  {
    set k | 0 <= k < |names| && names[k].Some? :: names[k].value
  }

  lemma TakenMembers(names: seq<Option<string>>, x: string)
    ensures x in Taken(names) <==> Some(x) in names
  {
    if Some(x) in names {
      var k :| 0 <= k < |names| && names[k] == Some(x);
      assert names[k].value in Taken(names);
    }
  }

  /** Only as many candidates as there are taken names can all be taken. */
  lemma {:induction false} CandidatesBound(base: string, k: nat, taken: set<string>)
    requires forall j :: 0 <= j < k ==> Candidate(base, j) in taken
    ensures k <= |taken|
  {
    if k > 0 {
      var last := Candidate(base, k - 1);
      var rest := taken - {last};
      forall j | 0 <= j < k - 1 ensures Candidate(base, j) in rest {
        if Candidate(base, j) == last {
          CandidateInjective(base, j, k - 1);
        }
      }
      CandidatesBound(base, k - 1, rest);
    }
  }

  /** The first candidate from number `k` on that is not taken. */
  function FirstFree(base: string, names: seq<Option<string>>, k: nat): (r: nat)
    requires forall j :: 0 <= j < k ==> Some(Candidate(base, j)) in names
    ensures k <= r
    ensures Some(Candidate(base, r)) !in names
    ensures forall j :: 0 <= j < r ==> Some(Candidate(base, j)) in names
    decreases |Taken(names)| + 1 - k
  {
    forall j | 0 <= j < k ensures Candidate(base, j) in Taken(names) {
      TakenMembers(names, Candidate(base, j));
    }
    CandidatesBound(base, k, Taken(names));
    if Some(Candidate(base, k)) !in names then k
    else
      TakenMembers(names, Candidate(base, k));
      CandidatesBound(base, k + 1, Taken(names));
      FirstFree(base, names, k + 1)
  }

  /** The name `resolveImportName` settles on, given the names taken by other modules. */
  function ResolvedName(importName: string, names: seq<Option<string>>): string
  {
    if Some(importName) !in names then importName
    else
      var base := Split(importName, '_')[0];
      Candidate(base, FirstFree(base, names, 0))
  }

  /** The resolved name is never among the taken names. */
  lemma ResolvedNameIsFree(importName: string, names: seq<Option<string>>)
    ensures Some(ResolvedName(importName, names)) !in names
  {
  }

  /** A free name is kept as it is. */
  lemma FreeNameIsKept(importName: string, names: seq<Option<string>>)
    requires Some(importName) !in names
    ensures ResolvedName(importName, names) == importName
  {
  }

  /**
   * A taken name is replaced by the first of `base`, `base_1`, `base_2`, ...
   * that is free, where `base` is the text before its first `_`.
   */
  lemma TakenNameGetsFirstFreeCandidate(importName: string, names: seq<Option<string>>, k: nat)
    requires Some(importName) in names
    requires Some(Candidate(Split(importName, '_')[0], k)) !in names
    requires forall j :: 0 <= j < k ==> Some(Candidate(Split(importName, '_')[0], j)) in names
    ensures ResolvedName(importName, names) == Candidate(Split(importName, '_')[0], k)
  {
  }

  /** With `Foo` and `Foo_1` taken, `Foo` resolves to `Foo_2`. */
  lemma ResolveExample()
    ensures ResolvedName("Foo", [Some("Foo"), Some("Foo_1")]) == "Foo_2"
  {
    var names := [Some("Foo"), Some("Foo_1")];
    SplitWithoutSeparator("Foo", '_');
    assert Candidate("Foo", 1) == "Foo_1";
    assert Candidate("Foo", 2) == "Foo_2";
    assert Some(Candidate("Foo", 2)) !in names;
    TakenNameGetsFirstFreeCandidate("Foo", names, 2);
  }

  /** `resolveImportName`: probes `base`, `base_1`, ... with a loop until a free name is found. */
  method ResolveImportName(importName: string, importPath: string, root: Node)
    returns (r: Result<string>)
    ensures ImportNames(root, importPath).Failure? ==> r == Failure(ImportNames(root, importPath).error)
    ensures ImportNames(root, importPath).Success? ==>
              r == Success(ResolvedName(importName, ImportNames(root, importPath).value))
  {
    var names := ImportNames(root, importPath);
    if names.Failure? {
      return Failure(names.error);
    }
    var importNames := names.value;
    if Some(importName) !in importNames {
      return Success(importName);
    }
    var baseName := Split(importName, '_')[0];
    var newName := baseName;
    var resolutionNumber := 1;
    ghost var tried: set<string> := {};
    while Some(newName) in importNames
      invariant newName == Candidate(baseName, resolutionNumber - 1)
      invariant forall j :: 0 <= j < resolutionNumber - 1 ==> Some(Candidate(baseName, j)) in importNames
      invariant resolutionNumber >= 1
      invariant resolutionNumber - 1 <= |Taken(importNames)|
      decreases |Taken(importNames)| + 1 - resolutionNumber
    {
      forall j | 0 <= j < resolutionNumber ensures Candidate(baseName, j) in Taken(importNames) {
        TakenMembers(importNames, Candidate(baseName, j));
      }
      CandidatesBound(baseName, resolutionNumber, Taken(importNames));
      newName := baseName + "_" + NatToString(resolutionNumber);
      resolutionNumber := resolutionNumber + 1;
    }
    ghost var k := FirstFree(baseName, importNames, 0);
    assert k == resolutionNumber - 1;
    return Success(newName);
  }
}
