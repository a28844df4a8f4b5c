/**
 * Tree query and anchor resolution (ast-utils.ts). The syntax tree is an
 * input value: the parser that builds it is not part of this model. A node
 * carries its kind, its span `[pos, end)`, the `text` an identifier or a
 * literal has (`None` where the parser's node has no `text`), and its
 * children in source order, as `getChildren()` lists them.
 */
module AstUtils {
  import opened Util
  import opened Sorting
  import opened Changes

  datatype Kind =
    | SourceFile | SyntaxList | ImportDeclaration | Identifier | StringLiteral
    | AsteriskToken | OpenBraceToken | CloseBraceToken | FromKeyword
    | ExpressionStatement | CallExpression | ArrayLiteralExpression
    | ObjectLiteralExpression | PropertyAssignment | ExportAssignment
    | OpenParenToken | CloseParenToken | OpenBracketToken | CloseBracketToken
    | CommaToken | OtherKind

  datatype Node = Node(kind: Kind, pos: int, end: int, text: Option<string>, children: seq<Node>)

  /** `node.getChildAt(i)`: `undefined` past the last child. */
  function ChildAt(n: Node, i: nat): (r: Option<Node>)
    ensures r.Some? <==> i < |n.children|
    ensures r.Some? ==> r.value in n.children
  {
    if i < |n.children| then Some(n.children[i]) else None
  }

  /** `m` is `n` or lies below it. */
  predicate InSubtree(m: Node, n: Node)
    decreases n
  {
    m == n || exists i :: 0 <= i < |n.children| && InSubtree(m, n.children[i])
  }

  /** The subtree of `n` in pre-order: the root, then each child's subtree from left to right. */
  function PreOrder(n: Node): seq<Node>
    decreases n
  {
    [n] + PreOrderAll(n.children)
  }

  function PreOrderAll(ns: seq<Node>): seq<Node>
    decreases ns
  {
    if ns == [] then [] else PreOrderAll(ns[..|ns| - 1]) + PreOrder(ns[|ns| - 1])
  }

  /** The nodes of `s` of kind `k`, in their order in `s`. */
  function OfKind(s: seq<Node>, k: Kind): (r: seq<Node>)
    ensures |r| <= |s|
  {
    if s == [] then []
    else OfKind(s[..|s| - 1], k) + (if s[|s| - 1].kind == k then [s[|s| - 1]] else [])
  }

  /** `OfKind` keeps exactly the members of kind `k`. */
  lemma {:induction false} OfKindMembers(s: seq<Node>, k: Kind, x: Node)
    ensures x in OfKind(s, k) <==> x in s && x.kind == k
  {
    if s != [] {
      var n := |s| - 1;
      OfKindMembers(s[..n], k, x);
      assert s == s[..n] + [s[n]];
      assert x in s <==> x in s[..n] || x == s[n];
    }
  }

  lemma {:induction false} OfKindAppend(a: seq<Node>, b: seq<Node>, k: Kind)
    ensures OfKind(a + b, k) == OfKind(a, k) + OfKind(b, k)
    decreases |b|
  {
    if b != [] {
      var n := |b| - 1;
      assert (a + b)[..|a + b| - 1] == a + b[..n];
      OfKindAppend(a, b[..n], k);
    } else {
      assert a + b == a;
    }
  }

  /** What `findNodes(n, k)` collects: the pre-order nodes of kind `k`. */
  function Collect(n: Node, k: Kind): seq<Node>
  {
    OfKind(PreOrder(n), k)
  }

  lemma {:induction false} PreOrderMembership(m: Node, n: Node)
    ensures m in PreOrder(n) <==> InSubtree(m, n)
    decreases n, 1
  {
    PreOrderAllMembership(m, n.children);
  }

  lemma {:induction false} PreOrderAllMembership(m: Node, ns: seq<Node>)
    ensures m in PreOrderAll(ns) <==> exists i :: 0 <= i < |ns| && InSubtree(m, ns[i])
    decreases ns, 0
  {
    if ns != [] {
      var n := |ns| - 1;
      PreOrderAllMembership(m, ns[..n]);
      PreOrderMembership(m, ns[n]);
      if m in PreOrderAll(ns) {
        if m in PreOrderAll(ns[..n]) {
          var i :| 0 <= i < n && InSubtree(m, ns[..n][i]);
          assert InSubtree(m, ns[i]);
        }
      }
      if i :| 0 <= i < |ns| && InSubtree(m, ns[i]) {
        if i < n {
          assert InSubtree(m, ns[..n][i]);
        }
      }
    }
  }

  /**
   * `findNodes` is sound and complete: it collects exactly the nodes of
   * kind `k` in the subtree of `n`, root included.
   */
  lemma CollectExactly(n: Node, k: Kind, m: Node)
    ensures m in Collect(n, k) <==> InSubtree(m, n) && m.kind == k
  {
    PreOrderMembership(m, n);
    OfKindMembers(PreOrder(n), k, m);
  }

  /** findNodes on a present node: pushes onto `arr` in pre-order; the accumulator is threaded as a value. */
  method FindNodesUnder(node: Node, kind: Kind, arr: seq<Node>) returns (result: seq<Node>)
    ensures result == arr + Collect(node, kind)
    decreases node
  {
    VisitedStart(node, kind);
    result := arr + (if node.kind == kind then [node] else []);
    var i := 0;
    while i < |node.children|
      invariant 0 <= i <= |node.children|
      invariant result == arr + OfKind(Visited(node, i), kind)
    {
      result := FindNodesUnder(node.children[i], kind, result);
      VisitedStep(node, i, kind);
      i := i + 1;
    }
    assert node.children[..i] == node.children;
  }

  /** The part of `PreOrder(node)` that comes before its child number `i`. */
  ghost function Visited(node: Node, i: nat): seq<Node>
    requires i <= |node.children|
  {
    [node] + PreOrderAll(node.children[..i])
  }

  lemma VisitedStart(node: Node, kind: Kind)
    ensures OfKind(Visited(node, 0), kind) == (if node.kind == kind then [node] else [])
  {
    assert node.children[..0] == [];
    assert Visited(node, 0) == [node];
    assert [node][..0] == [];
  }

  lemma VisitedStep(node: Node, i: nat, kind: Kind)
    requires i < |node.children|
    ensures OfKind(Visited(node, i + 1), kind) == OfKind(Visited(node, i), kind) + Collect(node.children[i], kind)
  {
    PreOrderAllStep(node.children, i);
    assert Visited(node, i + 1) == Visited(node, i) + PreOrder(node.children[i]);
    OfKindAppend(Visited(node, i), PreOrder(node.children[i]), kind);
  }

  lemma PreOrderAllStep(ns: seq<Node>, i: nat)
    requires i < |ns|
    ensures PreOrderAll(ns[..i + 1]) == PreOrderAll(ns[..i]) + PreOrder(ns[i])
  {
    assert ns[..i + 1][..i] == ns[..i];
  }

  /** `findNodes(node, kind, arr)`: a missing node contributes nothing. */
  method FindNodes(node: Option<Node>, kind: Kind, arr: seq<Node>) returns (result: seq<Node>)
    ensures node.None? ==> result == arr
    ensures node.Some? ==> result == arr + Collect(node.value, kind)
  {
    result := arr;
    if node.Some? {
      result := FindNodesUnder(node.value, kind, arr);
    }
  }

  function NodePos(n: Node): int
  {
    n.pos
  }

  /** `sortNodesByPosition`: sorts the caller's array in place by `pos`; a missing array gives `[]`. */
  method SortNodesByPosition(nodes: array?<Node>) returns (sorted: seq<Node>)
    modifies nodes
    ensures nodes == null ==> sorted == []
    ensures nodes != null ==> sorted == nodes[..] == SortBy(old(nodes[..]), NodePos)
  {
    if nodes == null {
      return [];
    }
    SortInPlace(nodes, NodePos);
    sorted := nodes[..];
  }

  /** The result of sorting by position is a permutation in non-decreasing `pos` order. */
  lemma SortedByPosition(s: seq<Node>)
    ensures forall i, j :: 0 <= i < j < |SortBy(s, NodePos)| ==> SortBy(s, NodePos)[i].pos <= SortBy(s, NodePos)[j].pos
    ensures multiset(SortBy(s, NodePos)) == multiset(s)
  {
    SortByCorrect(s, NodePos);
  }

  /** `sortNodesByPosition(nodes).pop()`: the node with the greatest `pos`, the last such one on ties. */
  function LastByPosition(nodes: seq<Node>): (r: Option<Node>)
    ensures r.None? <==> nodes == []
    ensures r.Some? ==> r.value in nodes && forall x :: x in nodes ==> x.pos <= r.value.pos
  {
    if nodes == [] then None
    else
      SortByLastIsMax(nodes, NodePos);
      Some(SortBy(nodes, NodePos)[|nodes| - 1])
  }

  /**
   * The node to insert after: the last candidate, or, with a `syntaxKind`,
   * the last node of that kind in the last candidate's subtree.
   */
  function Anchor(nodes: seq<Node>, syntaxKind: Option<Kind>): Option<Node>
  {
    var last := LastByPosition(nodes);
    if syntaxKind.None? then last
    else if last.None? then None
    else LastByPosition(Collect(last.value, syntaxKind.value))
  }

  /** Without a `syntaxKind` the anchor is a candidate of greatest `pos`. */
  lemma AnchorIsLastCandidate(nodes: seq<Node>)
    ensures Anchor(nodes, None).None? <==> nodes == []
    ensures Anchor(nodes, None).Some? ==>
              Anchor(nodes, None).value in nodes
              && forall x :: x in nodes ==> x.pos <= Anchor(nodes, None).value.pos
  {
  }

  /**
   * With a `syntaxKind` the anchor is a node of that kind inside the last
   * candidate, of greatest `pos` among them, and it is missing exactly when
   * there is no candidate or no such node.
   */
  lemma AnchorDrillsDown(nodes: seq<Node>, k: Kind)
    ensures Anchor(nodes, Some(k)).None? <==>
              nodes == [] || forall m :: InSubtree(m, LastByPosition(nodes).value) ==> m.kind != k
    ensures Anchor(nodes, Some(k)).Some? ==>
              var top, a := LastByPosition(nodes).value, Anchor(nodes, Some(k)).value;
              a.kind == k && InSubtree(a, top)
              && forall m :: InSubtree(m, top) && m.kind == k ==> m.pos <= a.pos
  {
    if nodes != [] {
      var top := LastByPosition(nodes).value;
      var found := Collect(top, k);
      forall m ensures m in found <==> InSubtree(m, top) && m.kind == k {
        CollectExactly(top, k, m);
      }
      if found != [] {
        assert found[0] in found;
      }
    }
  }

  /**
   * The single insert `insertAfterLastOccurence` makes: `separator + toInsert`
   * at the anchor's end, or at `fallbackPos` when there is no anchor. Without
   * either it fails.
   */
  function PlanInsertAfterLastOccurrence(nodes: seq<Node>, separator: string, toInsert: string,
                                         file: string, fallbackPos: Option<int>,
                                         syntaxKind: Option<Kind>): (r: Result<Change>)
    ensures r.Failure? <==> Anchor(nodes, syntaxKind).None? && fallbackPos.None?
    ensures r.Failure? ==> r.error == NoAnchorNoFallback(toInsert)
    ensures r.Success? ==> r.value.InsertChange? && r.value.path == file
    ensures r.Success? ==> r.value.toAdd == separator + toInsert
    ensures r.Success? && Anchor(nodes, syntaxKind).Some? ==> r.value.pos == Anchor(nodes, syntaxKind).value.end
    ensures r.Success? && Anchor(nodes, syntaxKind).None? ==> r.value.pos == fallbackPos.value
  {
    var anchor := Anchor(nodes, syntaxKind);
    if anchor.None? && fallbackPos.None? then Failure(NoAnchorNoFallback(toInsert))
    else
      var at := if anchor.Some? then anchor.value.end else fallbackPos.value;
      Success(NewInsertChange(file, at, separator + toInsert, None, None))
  }

  /** With no candidates a fallback of 0 is honoured: the text goes at the start of the file. */
  lemma FallbackZeroIsValid(separator: string, toInsert: string, file: string, content: string,
                            syntaxKind: Option<Kind>)
    ensures PlanInsertAfterLastOccurrence([], separator, toInsert, file, Some(0), syntaxKind).Success?
    ensures Splice(PlanInsertAfterLastOccurrence([], separator, toInsert, file, Some(0), syntaxKind).value, content)
         == separator + toInsert + content
  {
  }

  /** `sortNodesByPosition(nodes).pop()`, on an array the caller owns. */
  method PopLast(nodes: array<Node>) returns (lastItem: Option<Node>)
    modifies nodes
    ensures nodes[..] == SortBy(old(nodes[..]), NodePos)
    ensures lastItem == LastByPosition(old(nodes[..]))
  {
    ghost var candidates := nodes[..];
    var sorted := SortNodesByPosition(nodes);
    SortByCorrect(candidates, NodePos);
    lastItem := if |sorted| == 0 then None else Some(sorted[|sorted| - 1]);
  }

  /** The anchor search of `insertAfterLastOccurence`: the last node, then optionally the last of a kind inside it. */
  method FindAnchor(nodes: array<Node>, syntaxKind: Option<Kind>) returns (lastItem: Option<Node>)
    modifies nodes
    ensures nodes[..] == SortBy(old(nodes[..]), NodePos)
    ensures lastItem == Anchor(old(nodes[..]), syntaxKind)
  {
    ghost var candidates := nodes[..];
    lastItem := PopLast(nodes);
    if syntaxKind.Some? {
      ghost var top := lastItem;
      var found := FindNodes(lastItem, syntaxKind.value, []);
      var inner := new Node[|found|](i requires 0 <= i < |found| => found[i]);
      assert inner[..] == found;
      lastItem := PopLast(inner);
      if top.None? {
        assert found == [];
      } else {
        assert found == Collect(top.value, syntaxKind.value);
      }
    }
  }

  /**
   * `insertAfterLastOccurence`: finds the anchor, then builds and applies
   * the insert. Nothing is written when it fails.
   */
  method InsertAfterLastOccurrence(nodes: array<Node>, separator: string, toInsert: string,
                                   file: string, fallbackPos: Option<int>, syntaxKind: Option<Kind>,
                                   store: FileStore)
    returns (outcome: Result<()>)
    modifies nodes, store
    ensures nodes[..] == SortBy(old(nodes[..]), NodePos)
    ensures var plan := PlanInsertAfterLastOccurrence(old(nodes[..]), separator, toInsert, file,
                                                      fallbackPos, syntaxKind);
            plan.Failure? ==> outcome == Failure(plan.error)
    ensures var plan := PlanInsertAfterLastOccurrence(old(nodes[..]), separator, toInsert, file,
                                                      fallbackPos, syntaxKind);
            plan.Success? ==> (outcome.Success? <==> file in old(store.files))
    ensures var plan := PlanInsertAfterLastOccurrence(old(nodes[..]), separator, toInsert, file,
                                                      fallbackPos, syntaxKind);
            plan.Success? && outcome.Success? ==> store.files == ApplyTo(old(store.files), plan.value).value
    ensures outcome.Failure? ==> store.files == old(store.files)
  {
    ghost var candidates := nodes[..];
    var lastItem := FindAnchor(nodes, syntaxKind);
    if lastItem.None? && fallbackPos.None? {
      return Failure(NoAnchorNoFallback(toInsert));
    }
    var lastItemPosition := if lastItem.Some? then lastItem.value.end else fallbackPos.value;
    var editFile := NewInsertChange(file, lastItemPosition, separator + toInsert, None, None);
    assert editFile == PlanInsertAfterLastOccurrence(candidates, separator, toInsert, file, fallbackPos, syntaxKind).value;
    outcome := Apply(editFile, store);
  }
}
