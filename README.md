# Source patching for the Angular CLI route generator

This project models, in Dafny, the engine the Angular CLI (`ng generate route`, early
2016) uses to edit TypeScript files without rewriting them. The engine works in two
layers.

1. **Text edits** (`change.ts`). An edit is an `InsertChange`, `RemoveChange` or
   `ReplaceChange` anchored at a character offset. Applying one splices the file's text.
   `applyChanges` applies a batch from the bottom of the file to the top, so that no
   edit moves the offsets of the edits still to come.
2. **Structural queries** (`ast-utils.ts`, `route-utils.ts`). These read the syntax tree
   of a file and compute where an edit goes and what text it adds:
   - `findNodes` collects the nodes of one kind in a subtree;
   - `sortNodesByPosition` orders nodes by offset;
   - `insertAfterLastOccurence` anchors an insertion after the last of some nodes, with
     a fallback offset;
   - `insertImport` adds an import, or extends an existing import clause;
   - `resolveImportName` renames a component that clashes with an existing import
     (`Foo`, `Foo_1`, ...);
   - `configureMain` registers `provideRouter(routes)` in the single `bootstrap(...)`
     call of `main.ts`;
   - `addPathToRoutes` adds `{ path: ..., component: ... }` to the exported routes
     array. Its helpers are `pathExists`, `getParent`, `addChildPath`,
     `getChildrenArray` and `getValueForKey`; a nested route goes into its parent's
     `children` array.

Modules, one file each, in dependency order:

| module | file | models |
|---|---|---|
| `Util` | util.dfy | JavaScript string semantics: clamped `substring`, `split`/`join`, `indexOf`, ASCII `toLowerCase`, number formatting, `Array(n + 1).join(' ')` |
| `Sorting` | sorting.dfy | `Array.prototype.sort` with a numeric comparator, as a stable insertion sort (`SortBy` specifies the in-place `SortInPlace`) |
| `Changes` | change.dfy | the three edit kinds, their constructors' defaults, `apply()` on a file store |
| `AstUtils` | ast_utils.dfy | the generic syntax tree, `findNodes`, `sortNodesByPosition`, `insertAfterLastOccurence` |
| `Imports` | imports.dfy | `insertImport`, `resolveImportName` |
| `Routes` | routes.dfy | the route table, `getValueForKey`, `getChildrenArray`, `pathExists`, `getParent`, `addChildPath` |
| `RouteInsertion` | add_path.dfy | `addPathToRoutes` |
| `Bootstrap` | bootstrap.dfy | `configureMain` |
| `ApplyChanges` | apply_changes.dfy | `applyChanges` |

The parser is not modelled, so each query takes the tree it reads as an input. A
generic tree `Node(kind, pos, end, text, children)` serves the import and bootstrap
queries. The routes array is given as a structured view:
- `RouteObject` holds the object's properties, its offset and its close-brace offset;
- a `Prop` value is either leaf text or an array literal of route objects;
- a `Located` pairs a route with its chain of ancestors, nearest first, standing in
  for the parser's `parent` pointers.

A `getChildAt(i)` past the end is `undefined` in the source. The model makes it
`None`, and turns each place where the source then reads a property of `undefined`
into a `TypeError` failure. Every other `throw` becomes a `Failure`, with the error
named in `Util.Error`.

The query functions return the edits they plan and do not apply them. The file store
(a `FileStore` object holding a `map` from path to text) is changed only by
`Changes.Apply`, `AstUtils.InsertAfterLastOccurrence` and `ApplyChanges.ApplyChanges`.

Where the repository's documentation and its code differ, the model follows the code:
- `route-utils.ts` imports `insertAfterLastOccurrence` and calls it without a separator
  argument. `ast-utils.ts` exports only `insertAfterLastOccurence` (single r), which
  takes a separator. The model uses the exported function with an empty separator and
  the whole text as `toInsert`.
- The exported function applies its edit at once, yet `configureMain` and
  `addPathToRoutes` collect its result into a list of changes for `applyChanges`. The
  model keeps them as planned edits (`AstUtils.PlanInsertAfterLastOccurrence`).
- `tests/acceptance/newroute.spec.ts` expects `path: '/new-route'` with a leading slash,
  and never passes `route`. The code drops empty segments, so the path never starts
  with `/`, and it needs `pathOptions.route`.

## Model

| member | source | states |
|---|---|---|
| `Util.Split` | addon/ng2/utilities/route-utils.ts:140-141 | `split` gives at least one part, and no part contains the separator |
| `Util.SplitJoin` | addon/ng2/utilities/route-utils.ts:140-141 | splitting a `join` gives back the parts when none contains the separator |
| `Util.SplitWithoutSeparator` | addon/ng2/utilities/route-utils.ts:405 | a string without the separator splits into itself alone |
| `Util.IndexFrom` | addon/ng2/utilities/route-utils.ts:341 | the result is the FIRST offset at or after the start where the text occurs (none before it matches), or -1 exactly when it occurs nowhere from there on |
| `Util.NatToStringInjective` | addon/ng2/utilities/route-utils.ts:255 | distinct numbers give distinct decimal suffixes |
| `Util.ToLowerAscii` | addon/ng2/utilities/route-utils.ts:27 | lower-casing keeps the length, maps each of `A`-`Z` to its lower-case letter and keeps every other character |
| `Util.Filter` | addon/ng2/utilities/route-utils.ts:141 | `.filter(p)` keeps exactly the elements that satisfy `p`, and no more of them than there were |
| `Util.FilterAppend` | addon/ng2/utilities/route-utils.ts:141 | filtering keeps the order: the filter of a concatenation is the concatenation of the filters |
| `Util.FilterFirst` | addon/ng2/utilities/route-utils.ts:116-120 | the first element kept is the first element that satisfies `p` |
| `Util.FilterOnly` | addon/ng2/utilities/route-utils.ts:156-161 | when exactly one element satisfies `p`, the result is that element alone |
| `Util.FilterNone` | addon/ng2/utilities/route-utils.ts:156-161 | when none satisfies `p`, the result is empty |
| `Util.FilterTwo` | addon/ng2/utilities/route-utils.ts:156-161 | two elements that satisfy `p` give a result of at least two |
| `Util.Spaces` | addon/ng2/utilities/route-utils.ts:347 | `Array(n + 1).join(' ')` is exactly `n` spaces |
| `Sorting.SortByCorrect` | addon/ng2/utilities/ast-utils.ts:26 | the sort's result is ordered by the key and is a permutation of its input |
| `Sorting.SortByFirstIsMin` | addon/ng2/utilities/route-utils.ts:391 | `sort(...).shift()` yields an element with the least key |
| `Sorting.SortByLastIsMax` | addon/ng2/utilities/ast-utils.ts:56 | `sort(...).pop()` yields an element with the greatest key |
| `Sorting.SortInPlace` | addon/ng2/utilities/ast-utils.ts:26 | the in-place sort leaves the array equal to the stable sort of its old contents |
| `Sorting.InsertLast` | addon/ng2/utilities/ast-utils.ts:26 | one insertion step places the next element among the sorted prefix and leaves the rest as it was |
| `Changes.DefaultOrder` | addon/ng2/utilities/change.ts:36 | a missing or zero `order` becomes 1; any other value is kept |
| `Changes.DefaultDescription` | addon/ng2/utilities/change.ts:34-35 | a missing or empty description becomes the generated one |
| `Changes.ConstructorDefaults` | addon/ng2/utilities/change.ts:28-37 | a new change without `order` has order 1; an insert without a description is described as "Inserted X into position N of P" |
| `Changes.InsertText` | addon/ng2/utilities/change.ts:46-51 | an insert at an offset inside the text splits it there and puts the new text between; the length grows by the new text's |
| `Changes.RemoveText` | addon/ng2/utilities/change.ts:70-75 | inside the text, removal cuts exactly `toRemove.length` characters at the offset |
| `Changes.ReplaceText` | addon/ng2/utilities/change.ts:95-100 | inside the text, replacement cuts `oldText.length` characters and puts `newText` in their place |
| `Changes.InsertNothingIsNoOp` | tests/acceptance/change.spec.js:54-66 | inserting "" leaves any text unchanged, at any offset |
| `Changes.InsertAtNegativeOffset` | tests/acceptance/change.spec.js:40-52 | a negative offset is clamped: the text goes in front |
| `Changes.RemoveNothingIsNoOp` | tests/acceptance/change.spec.js:101-114 | removing "" leaves the text unchanged |
| `Changes.RemoveIgnoresRemovedText` | addon/ng2/utilities/change.ts:72 | removal depends only on the length of `toRemove`, never its characters |
| `Changes.ReplaceSpecialCases` | tests/acceptance/change.spec.js:149-176 | replacing "" is an insert; replacing with "" is a removal |
| `Changes.InsertThenRemove` | addon/ng2/utilities/change.ts:46-75 | removing what was just inserted at the same offset restores the text |
| `Changes.InsertExamples` | tests/acceptance/change.spec.js:26-52 | "hello" + " world!" at 6 is "hello world!"; at -6 it is " world!hello" |
| `Changes.RemoveExample` | tests/acceptance/change.spec.js:87-99 | removing "as foo" at 9 from the import line gives the expected text |
| `Changes.ReplaceExample` | tests/acceptance/change.spec.js:135-147 | replacing "* as foo" at 7 with "{ fooComponent }" gives the expected text |
| `Changes.ApplyTo` | addon/ng2/utilities/change.ts:46-51 | applying fails exactly when the file is missing; otherwise only that file changes, to its splice |
| `Changes.Apply` | addon/ng2/utilities/change.ts:46-51 | `apply()` updates the store to `ApplyTo`, or leaves it unchanged with an IOError |
| `AstUtils.OfKindMembers` | addon/ng2/utilities/ast-utils.ts:11-13 | the kind filter keeps exactly the nodes of that kind |
| `AstUtils.CollectExactly` | addon/ng2/utilities/ast-utils.ts:9-17 | `findNodes` collects exactly the nodes of the kind in the subtree |
| `AstUtils.FindNodesUnder` | addon/ng2/utilities/ast-utils.ts:9-17 | the recursive walk appends the pre-order nodes of the kind to the accumulator |
| `AstUtils.FindNodes` | addon/ng2/utilities/ast-utils.ts:9-17 | an `undefined` node leaves the accumulator as it is; otherwise the nodes of the kind are appended |
| `AstUtils.PreOrderMembership` | addon/ng2/utilities/ast-utils.ts:14 | the walk visits exactly the nodes of the subtree |
| `AstUtils.SortNodesByPosition` | addon/ng2/utilities/ast-utils.ts:24-29 | a null array gives []; otherwise the array is sorted in place by offset, and that array is returned |
| `AstUtils.SortedByPosition` | addon/ng2/utilities/ast-utils.ts:24-29 | the result is ordered by `pos` and is a permutation of the input |
| `AstUtils.LastByPosition` | addon/ng2/utilities/ast-utils.ts:56 | no node when the list is empty; otherwise a member with the greatest offset |
| `AstUtils.AnchorIsLastCandidate` | addon/ng2/utilities/ast-utils.ts:56 | without a kind, the anchor is the node with the greatest offset |
| `AstUtils.AnchorDrillsDown` | addon/ng2/utilities/ast-utils.ts:58-60 | with a kind, the anchor is the furthest node of that kind inside the last node; there is none exactly when that subtree has no node of the kind |
| `AstUtils.PlanInsertAfterLastOccurrence` | addon/ng2/utilities/ast-utils.ts:54-65 | fails exactly when there is no anchor and no fallback; otherwise inserts separator + text at the anchor's end or at the fallback |
| `AstUtils.FallbackZeroIsValid` | tests/acceptance/ast-utils.spec.ts:142-152 | with no nodes and fallback 0, the text goes at the beginning of the file |
| `AstUtils.PopLast` | addon/ng2/utilities/ast-utils.ts:56 | sorting and popping returns the node with the greatest offset and leaves the array sorted |
| `AstUtils.FindAnchor` | addon/ng2/utilities/ast-utils.ts:56-60 | the anchor search returns `Anchor` of the old contents |
| `AstUtils.InsertAfterLastOccurrence` | addon/ng2/utilities/ast-utils.ts:54-67 | rejects without writing when there is no anchor and no fallback; otherwise applies the planned insert |
| `Imports.RelevantImports` | addon/ng2/utilities/route-utils.ts:80-85 | keeps exactly the import declarations whose module specifier is the file (exactly once), in order: it is `Filter` with that test, so `relevantImports[0]` is the first of them |
| `Imports.RelevantImportsComplete` | addon/ng2/utilities/route-utils.ts:80-85 | every declaration importing from the file is kept |
| `Imports.RelevantIsImportedFrom` | addon/ng2/utilities/route-utils.ts:77-85 | a declaration is relevant exactly when it lies in the tree and imports from the file |
| `Imports.HasWildcardIff` | addon/ng2/utilities/route-utils.ts:92-97 | the `*` flag is set exactly when some relevant declaration contains an asterisk |
| `Imports.IdentifiersOfMembers` | addon/ng2/utilities/route-utils.ts:92-93 | the gathered identifiers are exactly the identifiers inside the relevant declarations |
| `Imports.GatherImports` | addon/ng2/utilities/route-utils.ts:89-97 | the loop computes the identifiers and the wildcard flag |
| `Imports.Named` | addon/ng2/utilities/route-utils.ts:104 | keeps identifiers whose text is the symbol |
| `Imports.NamedEmptyIff` | addon/ng2/utilities/route-utils.ts:104-107 | nothing is kept exactly when no identifier has the symbol's text |
| `Imports.ClauseFallback` | addon/ng2/utilities/route-utils.ts:108-109 | the first close brace's offset when it is not 0; when it is 0 the `||` falls back to the first `from` keyword, and a missing one is a TypeError; a clause without braces (`import Foo from 'x'`) fails with a TypeError |
| `Imports.UseStrict` | addon/ng2/utilities/route-utils.ts:116-117 | keeps exactly the string literals that are `'use strict'`, in pre-order: it is `Filter` with that test |
| `Imports.UseStrictFirst` | addon/ng2/utilities/route-utils.ts:116-120 | `useStrict[0]`, whose end is the fallback, is the first `'use strict'` literal of the file |
| `Imports.ExtendClause` | addon/ng2/utilities/route-utils.ts:99-112 | the clause extension equals its plan |
| `Imports.InsertImport` | addon/ng2/utilities/route-utils.ts:73-130 | `insertImport` equals `InsertImportPlan` |
| `Imports.NoEditAfterWildcard` | addon/ng2/utilities/route-utils.ts:99-102 | a `*` import of the file means no edit |
| `Imports.NoEditWhenBound` | addon/ng2/utilities/route-utils.ts:104-112 | a symbol already imported from the file means no edit |
| `Imports.ExtendsExistingClause` | addon/ng2/utilities/route-utils.ts:107-111 | otherwise `, symbol` goes after the last imported identifier, or at the clause fallback |
| `Imports.AddsNewDeclaration` | addon/ng2/utilities/route-utils.ts:115-129 | without a relevant import, a new declaration goes after the last import's string literal, else after `'use strict'`, else at 0 |
| `Imports.NewDeclarationAtBeginning` | tests/acceptance/newroute.spec.ts:27-38 | in a file with no imports and no `'use strict'`, `import { S } from 'F';\n` is prefixed |
| `Imports.BracesUnlessDefault` | addon/ng2/utilities/route-utils.ts:122-128 | named imports are braced, default imports are not; the separator and terminator depend on the position |
| `Imports.TopLevelImports` | addon/ng2/utilities/route-utils.ts:231-232 | keeps exactly the top-level import declarations, in order: it is `Filter` with the kind test |
| `Imports.CandidateInjective` | addon/ng2/utilities/route-utils.ts:255 | `base_1`, `base_2`, ... are pairwise distinct |
| `Imports.TakenMembers` | addon/ng2/utilities/route-utils.ts:247 | a name is taken exactly when it is among the imported names |
| `Imports.CandidatesBound` | addon/ng2/utilities/route-utils.ts:254-257 | no more candidates can be taken than there are names, so the renaming loop ends |
| `Imports.FirstFree` | addon/ng2/utilities/route-utils.ts:254-257 | the first candidate that is not taken, with every earlier one taken |
| `Imports.ResolvedNameIsFree` | addon/ng2/utilities/route-utils.ts:227-259 | the resolved name never clashes with an imported name |
| `Imports.FreeNameIsKept` | addon/ng2/utilities/route-utils.ts:247-250 | a name that does not clash is kept |
| `Imports.TakenNameGetsFirstFreeCandidate` | addon/ng2/utilities/route-utils.ts:251-258 | a clashing name becomes `base_k` for the least free k, where base is the text before the first `_` |
| `Imports.ResolveExample` | addon/ng2/utilities/route-utils.ts:251-258 | with `Foo` and `Foo_1` taken, `Foo` resolves to `Foo_2` |
| `Imports.ResolveImportName` | addon/ng2/utilities/route-utils.ts:227-259 | the loop computes `ResolvedName` of the imported names, or the failure of reading them |
| `Routes.GetValueForKey` | addon/ng2/utilities/route-utils.ts:467-473 | `path` is read from the first property and `component` from the second, and only when it is named for the key and has text |
| `Routes.LocateAll` | addon/ng2/utilities/route-utils.ts:455-457 | every element of a `children` array gets its parent's chain |
| `Routes.ChildInChildrenArray` | addon/ng2/utilities/route-utils.ts:450-460 | `getChildrenArray` contains every route in any `children` array of the level |
| `Routes.MaxHeightOfChildren` | addon/ng2/utilities/route-utils.ts:450-460 | the next level is strictly lower in the tree, so the recursions on it end |
| `Routes.RemovePlus` | addon/ng2/utilities/route-utils.ts:140 | the result has no `+`, and a string without one is unchanged |
| `Routes.NonEmpty` | addon/ng2/utilities/route-utils.ts:141 | keeps exactly the non-empty segments, in order (it is `Filter` with `n !== ''`), and is the identity when none is empty |
| `Routes.NormalizeIsWellFormed` | addon/ng2/utilities/route-utils.ts:140-141 | a normalised route has no `+`, no leading or trailing `/` and no empty segment |
| `Routes.NormalizeIdempotent` | addon/ng2/utilities/route-utils.ts:140-141 | normalising twice is normalising once |
| `Routes.SplitRoute` | addon/ng2/utilities/route-utils.ts:405-410 | a route splits into at least one segment |
| `Routes.SplitRouteGluesParameter` | addon/ng2/utilities/route-utils.ts:406-410 | `a/:b` stays one segment: a positional parameter is glued to its route |
| `Routes.SplitRouteGluesSecondSegment` | addon/ng2/utilities/route-utils.ts:405-410 | for any number of later segments, a second segment holding `:` is glued onto the first and the rest are split off unchanged |
| `Routes.SplitRouteExample` | addon/ng2/utilities/route-utils.ts:405-410 | `a/:id/c` splits into `a/:id` and `c` |
| `Routes.SplitTwoSegments` | addon/ng2/utilities/route-utils.ts:405-410 | `a/b` without a parameter splits into `a` and `b` |
| `Routes.Repeated` | addon/ng2/utilities/route-utils.ts:411-430 | keeps the routes with this segment and component whose rebuilt path is the full route |
| `Routes.RepeatedComplete` | addon/ng2/utilities/route-utils.ts:411-430 | every such route is kept |
| `Routes.RebuildPath` | addon/ng2/utilities/route-utils.ts:418-426 | the parent walk prefixes each enclosing object's path |
| `Routes.FilterRepeated` | addon/ng2/utilities/route-utils.ts:411-430 | the filter computes the repeated routes; `sameRoute` ends as the LAST sibling's match; any sibling's match is returned beside it |
| `Routes.PathExists` | addon/ng2/utilities/route-utils.ts:399-443 | `pathExists` as written equals `PathExistsSpec` |
| `Routes.CorrectedPathExists` | addon/ng2/utilities/route-utils.ts:399-443 | the corrected walk equals `CorrectedPathExistsSpec` |
| `Routes.PathExistsOnEmpty` | addon/ng2/utilities/route-utils.ts:400-402 | an empty level holds no duplicate |
| `Routes.PathExistsSound` | addon/ng2/utilities/route-utils.ts:399-443 | a reported duplicate is a route in the table with the component and some path `seg` whose rebuilt path (`seg` under the paths of its ancestors) is the full route |
| `Routes.SearchPathFindsOnThisLevel` | addon/ng2/utilities/route-utils.ts:427-438 | a duplicate on the current level is always reported |
| `Routes.TopLevelChainPath` | addon/ng2/utilities/route-utils.ts:418-426 | a top-level route's rebuilt path is its own |
| `Routes.ChainPathAppend` | addon/ng2/utilities/route-utils.ts:418-426 | the parent walk goes through the near ancestors first, then the far ones |
| `Routes.ChainPathOfChild` | addon/ng2/utilities/route-utils.ts:418-426 | a child's rebuilt path is its parent's rebuilt path of `parentPath/childPath` |
| `Routes.DescentChainPath` | addon/ng2/utilities/route-utils.ts:418-426 | at the end of a line of nested routes from the top level, the rebuilt path is the line's paths joined by `/` |
| `Routes.SplitRouteOfSegments` | addon/ng2/utilities/route-utils.ts:405-410 | segments without `/` or `:` joined by `/` split back into themselves |
| `Routes.CorrectedWalkStep` | addon/ng2/utilities/route-utils.ts:405-442 | when any sibling has the first segment, the corrected walk shifts it and answers as the next level does for the rest |
| `Routes.CorrectedWalkFollowsLine` | addon/ng2/utilities/route-utils.ts:399-443 | the corrected walk follows a line of nested routes level by level and reports the record at its end |
| `Routes.CorrectedFindsAtDepth` | addon/ng2/utilities/route-utils.ts:399-443 | the corrected walk reports `p1/.../pn` whenever a record with the component sits at the end of a line of nested routes with paths `p1`, ..., `pn`, at any depth and wherever each route sits among its siblings |
| `Routes.PathExistsMissesNestedDuplicate` | addon/ng2/utilities/route-utils.ts:415-435 | as written, `a/b` with component X is not reported in `[a{children:[b:X]}, z]` |
| `Routes.CorrectedReportsNestedDuplicate` | addon/ng2/utilities/route-utils.ts:411-442 | the corrected walk reports that duplicate |
| `Routes.WithPath` | addon/ng2/utilities/route-utils.ts:380-381 | the potential parents are exactly the routes of the level whose path is the segment |
| `Routes.WithPathNone` | addon/ng2/utilities/route-utils.ts:380-381 | no route with the segment gives no potential parent |
| `Routes.WithPathComplete` | addon/ng2/utilities/route-utils.ts:380-381 | every such route is a potential parent |
| `Routes.FirstByPosition` | addon/ng2/utilities/route-utils.ts:391 | none when empty; otherwise a member with the least offset |
| `Routes.GetParent` | addon/ng2/utilities/route-utils.ts:367-393 | `getParent` equals `GetParentSpec` |
| `Routes.GetParentOfEmptyRoute` | addon/ng2/utilities/route-utils.ts:371-373 | a fully matched route has no parent |
| `Routes.GetParentOfEmptyTable` | addon/ng2/utilities/route-utils.ts:368-370 | an empty table gives no parent |
| `Routes.GetParentSound` | addon/ng2/utilities/route-utils.ts:380-392 | the parent is the one passed in, or a route of the table that has a path |
| `Routes.ChildrenArrayMember` | addon/ng2/utilities/route-utils.ts:450-460 | every route of the next level is a child of a route of this level, with that route's chain extended |
| `Routes.GetParentFindsTopLevelParent` | addon/ng2/utilities/route-utils.ts:367-393 | for `s1/s2` (no `/`, `s2` without `:`), the parent is the top-level route with path `s1` that comes first in the file, when no route of the next level has path `s2` |
| `Routes.FirstSegmentConsumed` | addon/ng2/utilities/route-utils.ts:380-392 | a matched first segment is shifted off, and the first match by position is the parent passed down |
| `Routes.LastSegmentConsumed` | addon/ng2/utilities/route-utils.ts:371-373 | a last segment matched by a level's only route leaves nothing to add to: no parent |
| `Routes.FullyMatchedHasNoParent` | addon/ng2/utilities/route-utils.ts:362-393 | a route matched on both levels has no parent ("undefined if ... the entire route was matched") |
| `Routes.NestedExampleHasNoParent` | addon/ng2/utilities/route-utils.ts:362-393 | in `[a{children:[b:X]}, z]`, `a/b` has no parent |
| `Routes.CountLiteralsAppend` | addon/ng2/utilities/route-utils.ts:331-337 | the count of object and array literals adds up over a chain |
| `Routes.NestingLevelOfRouteChain` | addon/ng2/utilities/route-utils.ts:329-337 | for a route at depth d, the nesting level is 2d + 3 |
| `Routes.ChildrenArrayKeepsRouteChain` | addon/ng2/utilities/route-utils.ts:450-460 | children carry well-formed ancestor chains, one level deeper |
| `Routes.TopLevelRouteChain` | addon/ng2/utilities/route-utils.ts:167-169 | top-level routes carry the depth-0 chain |
| `Routes.ChildrenProps` | addon/ng2/utilities/route-utils.ts:325-327 | keeps exactly the property assignments named `children` |
| `Routes.ChildrenPropsInOrder` | addon/ng2/utilities/route-utils.ts:325-327 | `childrenNode` is `Filter` with that test, so it keeps every one, in order |
| `Routes.ChildrenPropsFirst` | addon/ng2/utilities/route-utils.ts:325-352 | `childrenNode[0]` is the parent's first `children` assignment |
| `Routes.ChildRouteStripsParent` | addon/ng2/utilities/route-utils.ts:340-341 | the child route of `parent/child` is `child` |
| `Routes.AddChildPath` | addon/ng2/utilities/route-utils.ts:317-360 | `addChildPath` equals `ChildEditSpec` at the nesting level the parent walk counts |
| `Routes.ChildGoesFirstInExistingArray` | addon/ng2/utilities/route-utils.ts:349-352 | with a `children` array, the record goes at its start, indented by the level, followed by `, ` |
| `Routes.ChildrenArrayIsSynthesised` | addon/ng2/utilities/route-utils.ts:353-358 | otherwise a `children: [ ... ]` property is added before the parent's close brace, with the indentation |
| `Routes.ChildEditUnderFirstLevel` | addon/ng2/utilities/route-utils.ts:340-358 | under a first-level parent with path `pp`, `pp/child` becomes `{ path: 'child', ... }` indented by six spaces, in either form |
| `Routes.FirstLevelTexts` | addon/ng2/utilities/route-utils.ts:346-358 | the two texts of `addChildPath` at nesting level 3, written out |
| `RouteInsertion.DropSegment` | addon/ng2/utilities/route-utils.ts:146 | `[^/]*` consumes up to the next `/` |
| `RouteInsertion.StripPositionalHead` | addon/ng2/utilities/route-utils.ts:146 | removing parameters never invents a first character |
| `RouteInsertion.StripPositionalRemovesParameters` | addon/ng2/utilities/route-utils.ts:146-148 | no `/:` is left after the parameters are removed |
| `RouteInsertion.StripPositionalWithoutColon` | addon/ng2/utilities/route-utils.ts:146-148 | a route without `:` is unchanged |
| `RouteInsertion.StripPositionalPrefix` | addon/ng2/utilities/route-utils.ts:146-148 | a leading segment is kept |
| `RouteInsertion.StripPositionalOfParameter` | addon/ng2/utilities/route-utils.ts:146-148 | `a/:p` becomes `a` |
| `RouteInsertion.LazyMarksMarkEverySlash` | addon/ng2/utilities/route-utils.ts:147-148 | every `/` is followed by `+` (a lazy folder) |
| `RouteInsertion.LazyMarksOfSegment` | addon/ng2/utilities/route-utils.ts:147-148 | a single segment is unchanged |
| `RouteInsertion.LazyMarksPrefix` | addon/ng2/utilities/route-utils.ts:147-148 | the marks are added after the first segment |
| `RouteInsertion.LazyMarksOfSegments` | addon/ng2/utilities/route-utils.ts:147-148 | `a/b` becomes `a/+b`, and an existing `+` is not doubled |
| `RouteInsertion.DropSegmentOfSegment` | addon/ng2/utilities/route-utils.ts:146 | a segment without `/` is consumed entirely |
| `RouteInsertion.NestedRoutePath` | addon/ng2/utilities/route-utils.ts:146-149 | `parent/child` imports from `./app/+parent/+child/child.component` |
| `RouteInsertion.ParameterRoutePath` | addon/ng2/utilities/route-utils.ts:146-149 | `name/:param` imports from `./app/+name/name.component` |
| `RouteInsertion.ExportDefaults` | addon/ng2/utilities/route-utils.ts:156-160 | keeps exactly the export assignments whose text mentions `export default`, in order: it is `Filter` with that test |
| `RouteInsertion.PlanRecord` | addon/ng2/utilities/route-utils.ts:161-193 | the position/content flow, with `pathExists` as written, computes `RecordEdit(false, ...)` |
| `Util.ReplaceFirst` | addon/ng2/utilities/route-utils.ts:197 | `replace` with a one-character pattern keeps the length, and a text without the character is unchanged |
| `Util.ReplaceFirstAt` | addon/ng2/utilities/route-utils.ts:197 | only the first occurrence is replaced: the text before it and after it is kept |
| `RouteInsertion.ImportPath` | addon/ng2/utilities/route-utils.ts:197 | the Windows correction leaves a path without `\` as it is |
| `RouteInsertion.ImportPathCorrectsFirstBackslash` | addon/ng2/utilities/route-utils.ts:197 | the first `\` of the route path becomes `/`, and the rest of the path is kept |
| `RouteInsertion.FinishWithImport` | addon/ng2/utilities/route-utils.ts:194-199 | the two changes are the record insert, then the component import |
| `RouteInsertion.AddPathToRoutes` | addon/ng2/utilities/route-utils.ts:139-200 | `addPathToRoutes` equals `AddPathPlan(false, ...)`, the plan with `pathExists` as written; the name is resolved against the route path as built, and the import uses it with its first `\` turned into `/` |
| `RouteInsertion.AddPathIsRecordThenImport` | addon/ng2/utilities/route-utils.ts:139-200 | succeeds exactly when the record edit and the import succeed; returns an `InsertChange` with order 1 and the generated description, then the import of `Original as Resolved` |
| `RouteInsertion.AddPathPropagatesResolutionFailure` | addon/ng2/utilities/route-utils.ts:150-151 | a failure while resolving the name is the result |
| `RouteInsertion.RecordNeedsOneExportDefault` | addon/ng2/utilities/route-utils.ts:161-164 | zero or several `export default` statements are refused |
| `RouteInsertion.NoExportDefaultRefused` | addon/ng2/utilities/route-utils.ts:156-164 | a file without any `export default` statement is refused |
| `RouteInsertion.TwoExportDefaultsRefused` | addon/ng2/utilities/route-utils.ts:156-164 | a file with two `export default` statements is refused |
| `RouteInsertion.OnlyExportDefaultIsEdited` | addon/ng2/utilities/route-utils.ts:156-167 | with exactly one, wherever it is among the statements, its array is the one edited |
| `RouteInsertion.SingleExport` | addon/ng2/utilities/route-utils.ts:156-167 | a file whose only statement is the `export default` edits its array |
| `RouteInsertion.RecordRefusesTopLevelDuplicate` | addon/ng2/utilities/route-utils.ts:171-174 | a top-level route with the same path and component is refused as a duplicate, by either walk |
| `RouteInsertion.RecordAtTopLevel` | addon/ng2/utilities/route-utils.ts:171-193 | without a parent: a duplicate (for the walk chosen) is refused; otherwise `\n  { path: ..., component: ... }` goes after the open bracket, followed by `\n` in an empty array and `,` otherwise |
| `RouteInsertion.RecordUnderParent` | addon/ng2/utilities/route-utils.ts:171-187 | with a parent (a route of the table): a duplicate (for the walk chosen) is refused; otherwise the edit is the child edit at nesting level 2d + 3 |
| `RouteInsertion.RecordUnderTopLevelParent` | addon/ng2/utilities/route-utils.ts:171-187 | `s1/s2` under the first top-level route with path `s1`: unless a duplicate, `{ path: 's2', ... }` goes first into its `children` array, or into a new `children` property before its close brace |
| `RouteInsertion.AsWrittenInsertsNestedDuplicate` | addon/ng2/utilities/route-utils.ts:171-193 | on `[a{children:[b:X]}, z]`, `a/b` with `X` is added again at the top level as written, and refused by the corrected walk |
| `RouteInsertion.ParentChainIsRouteChain` | addon/ng2/utilities/route-utils.ts:177-179 | the parent found carries a well-formed ancestor chain |
| `RouteInsertion.ImportedAsNamesResolved` | addon/ng2/utilities/route-utils.ts:195-196 | the import names the component as is, or as `Original as Resolved` when renamed |
| `Bootstrap.HeadText` | addon/ng2/utilities/route-utils.ts:27 | the leading name exists exactly when the statement's first child has a first child with text |
| `Bootstrap.BootstrapNodes` | addon/ng2/utilities/route-utils.ts:24-28 | keeps only top-level expression statements led by `bootstrap`, in any letter case |
| `Bootstrap.BootstrapNodesComplete` | addon/ng2/utilities/route-utils.ts:24-28 | every such statement is kept |
| `Bootstrap.Texts` | addon/ng2/utilities/route-utils.ts:34-35 | `.map(_ => _.text)` keeps the length and maps each node to its text |
| `Bootstrap.IsBootstrappedIff` | addon/ng2/utilities/route-utils.ts:33-36 | configured exactly when some identifier inside the call is `provideRouter` |
| `Bootstrap.ConfigureBootstrap` | addon/ng2/utilities/route-utils.ts:21-59 | the bootstrap part computes `BootstrapEdits` |
| `Bootstrap.ConfigureMain` | addon/ng2/utilities/route-utils.ts:16-61 | `configureMain` equals `ConfigurePlan` |
| `Bootstrap.NeedsExactlyOneBootstrap` | addon/ng2/utilities/route-utils.ts:29-32 | zero or several bootstrap calls are refused |
| `Bootstrap.TwoBootstrapsAreRefused` | addon/ng2/utilities/route-utils.ts:29-32 | two distinct bootstrap statements always make it refuse |
| `Bootstrap.AlreadyConfiguredMainGetsOnlyImports` | addon/ng2/utilities/route-utils.ts:37-39 | a configured call gets only the two imports |
| `Bootstrap.RegistersInProvidersArray` | addon/ng2/utilities/route-utils.ts:45-50 | with a providers array, `provideRouter(r)` goes after its last element (with `, `) or at its close bracket |
| `Bootstrap.RegistersNewProvidersArgument` | addon/ng2/utilities/route-utils.ts:51-55 | without one, `, [provideRouter(r)]` goes after the last argument or at the close paren |
| `Bootstrap.ImportsComeFirst` | addon/ng2/utilities/route-utils.ts:18-20 | the result is the `provideRouter` import, the default import of the routes, then the registration exactly when one is needed |
| `ApplyChanges.Present` | addon/ng2/utilities/route-utils.ts:309 | keeps exactly the changes that are there, each as many times as it is given |
| `ApplyChanges.PresentAppend` | addon/ng2/utilities/route-utils.ts:309 | the filter keeps the list order: it distributes over concatenation |
| `ApplyChanges.ApplyAll` | addon/ng2/utilities/route-utils.ts:311 | the chain never adds or drops a file |
| `ApplyChanges.ApplyChanges` | addon/ng2/utilities/route-utils.ts:307-312 | the store and outcome are those of applying the sorted present changes in turn |
| `ApplyChanges.OrderedIsBottomUp` | addon/ng2/utilities/route-utils.ts:309-310 | the application order is a permutation of the present changes, by non-increasing offset, and holds each given change exactly as many times as it is given |
| `ApplyChanges.ApplyAllFailsOnMissingFile` | addon/ng2/utilities/route-utils.ts:311 | the chain fails exactly when some change names a missing file, with that file's IOError |
| `ApplyChanges.BottomUpKeepsOffsets` | addon/ng2/utilities/change.ts:15-16 | inserts into one file applied bottom-up equal weaving each text in at its offset in the ORIGINAL text |
| `ApplyChanges.ApplyChangesKeepsPlannedOffsets` | addon/ng2/utilities/route-utils.ts:307-312 | `applyChanges` of inserts into one file, all inside its text, puts every text at its planned offset |
| `ApplyChanges.TopDownShiftsOffsets` | addon/ng2/utilities/route-utils.ts:310 | applied top-down instead, an earlier insert shifts a later one: "ab" gives "XYab", not "XaYb" |

## Left out

- Parsing TypeScript (`ts.createSourceFile`), `getFullText` and `getChildAt`'s
  conventions: foreign code. The trees are inputs. The routes array is an input in the
  structured view described above, and `getFullText().indexOf('export default')` is the
  `mentionsExportDefault` flag.
- Reading and writing files (`fs.readFileSync`, `fs-promise.ts`) and the promise
  machinery: I/O. The file store is a map; a missing file is `IOError`.
- `ReplaceChange.apply` does not return its write, so the next change in `applyChanges`
  can read the file before that write lands. This is concurrency, and the model applies
  changes strictly in turn.
- `MessageChange`, `confirmComponentExport`, `resolveComponentPath` and the `routes`
  blueprint (`addon/ng2/blueprints/routes/index.js`): they do no source patching, or
  work only on the file system.
- `ApplyChanges.Ordered`: V8's `sort` of that era is stable only up to 10 elements, and
  the model sorts stably at every length.
- `AstUtils.SortNodesByPosition`, `Routes.GetParent`: `Array.prototype.sort` with a `pos`
  comparator is a stable sort in the model, under the same condition.
- `Util.ToLowerAscii`: only ASCII letters are folded. Full Unicode `toLowerCase` is not
  modelled.
- `RouteInsertion.AddPathToRoutes`: the source writes the resolved name back into
  `pathOptions.component`, which the caller can see. The model returns the changes only.
- `RouteInsertion.AddPathToRoutes`: the routes file is read twice, once as a generic
  tree for `insertImport` and once as the structured route table. The file that
  `resolveImportName` reads (`pathOptions.routesFile`) is a third input, and nothing
  ties the three together.
- `Routes.ChildrenIn`: a `children` value that is not an array literal contributes no
  routes, where the source would read a child of its value and may throw.
- `Routes.ChildEditSpec`: the `!childrenInfo` duplicate branch of `addPathToRoutes`
  (route-utils.ts:180-183) never fires, because `addChildPath` is called only with a
  parent; the model has no such branch.
- `AstUtils.InsertAfterLastOccurrence`: the caller's array is sorted in place, as in the
  source, but the `pop` works on the sorted copy that the method returns, not on the
  caller's array.
- `Bootstrap.ConfigureMain`: the repository's tests (`newroute.spec.ts`) treat
  `configureMain` and `addPathToRoutes` as applying their edits and returning a promise.
  The code returns the changes, and so does the model.

## Findings

| source | as written | input that shows it | evidently intended | confidence | as-written member | corrected member |
|---|---|---|---|---|---|---|
| addon/ng2/utilities/route-utils.ts:415-435 | `sameRoute` is reassigned in the filter callback for every sibling, so only the LAST route of a level decides whether the first segment of the route is consumed before descending | routes `[{ path: 'a', children: [{ path: 'b', component: X }] }, { path: 'z' }]`, route `a/b`, component `X`: the last sibling `z` does not match `a`, so the next level is searched for `a` instead of `b`, and the duplicate is not reported | consume the segment when ANY route of the level matches it, so the existing `a/b` is reported as a duplicate | not executed | `Routes.PathExistsMissesNestedDuplicate` | `Routes.CorrectedReportsNestedDuplicate` |

The model's `addPathToRoutes` (`RouteInsertion.AddPathToRoutes`, `RouteInsertion.PlanRecord`)
keeps the walk as written: it is `AddPathPlan(false, ...)`, and `Routes.PathExists` and
`Routes.PathExistsSpec` are that walk. `RouteInsertion.AsWrittenInsertsNestedDuplicate`
shows the consequence on the input above: `getParent` finds no parent for `a/b`, because
both segments are matched, and the existing record is added again at the top level.
`AddPathPlan(true, ...)` is the plan with the corrected walk (`Routes.CorrectedPathExists`),
and it refuses that input as a duplicate. `Routes.CorrectedFindsAtDepth` proves the
intended property of the corrected walk at every depth: a record with the component at
the end of a line of nested routes with paths `p1`, ..., `pn` is reported for
`p1/.../pn`.
